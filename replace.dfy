/** Literal substring replacement with the meaning of Python's `str.replace`:
    the occurrences of the pattern are found from left to right, they do not
    overlap, and every one of them is replaced. */
module Substitute {
  import opened Alphabet

  /** `pat` occurs in `s` starting at index `i`. */
  predicate OccursAt(s: string, pat: string, i: int) {
    0 <= i && i + |pat| <= |s| && s[i..i + |pat|] == pat
  }

  predicate Occurs(s: string, pat: string) {
    exists i | 0 <= i <= |s| :: OccursAt(s, pat, i)
  }

  /** `s.replace(pat, rep)` for a non-empty `pat`. */
  function Replace(s: string, pat: string, rep: string): string
    requires |pat| > 0
    decreases |s|
  {
    if |s| < |pat| then s
    else if s[..|pat|] == pat then rep + Replace(s[|pat|..], pat, rep)
    else [s[0]] + Replace(s[1..], pat, rep)
  }

  /** Replacing a pattern that does not occur leaves the string as it was. */
  lemma {:induction false} ReplaceAbsent(s: string, pat: string, rep: string)
    requires |pat| > 0
    requires !Occurs(s, pat)
    ensures Replace(s, pat, rep) == s
    decreases |s|
  {
    if |s| >= |pat| {
      assert !OccursAt(s, pat, 0);
      forall i ensures !OccursAt(s[1..], pat, i) {
        if OccursAt(s[1..], pat, i) {
          assert s[1..][i..i + |pat|] == s[i + 1..i + 1 + |pat|];
          assert OccursAt(s, pat, i + 1);
        }
      }
      ReplaceAbsent(s[1..], pat, rep);
    }
  }

  /** Every character of a replacement result comes from the string or from the replacement. */
  lemma {:induction false} ReplaceChars(s: string, pat: string, rep: string)
    requires |pat| > 0
    ensures forall c :: c in Replace(s, pat, rep) ==> c in s || c in rep
    decreases |s|
  {
    if |s| >= |pat| {
      if s[..|pat|] == pat {
        ReplaceChars(s[|pat|..], pat, rep);
        forall c | c in s[|pat|..] ensures c in s { }
      } else {
        ReplaceChars(s[1..], pat, rep);
        forall c | c in s[1..] ensures c in s { }
      }
    }
  }

  /** A resolved name stays resolved under a rule whose replacement is resolved. */
  lemma ReplaceKeepsResolved(s: string, pat: string, rep: string)
    requires |pat| > 0
    requires Resolved(s) && Resolved(rep)
    ensures Resolved(Replace(s, pat, rep))
  {
    var r := Replace(s, pat, rep);
    ReplaceChars(s, pat, rep);
    forall i | 0 <= i < |r| ensures Permitted(r[i]) {
      assert r[i] in r;
    }
  }

  /** A one-character pattern that the replacement does not contain is gone
      from the result: a rule such as "é" -> "e" removes every "é". */
  lemma {:induction false} ReplaceRemovesChar(s: string, c: char, rep: string)
    requires c !in rep
    ensures c !in Replace(s, [c], rep)
    decreases |s|
  {
    if |s| >= 1 {
      ReplaceRemovesChar(s[1..], c, rep);
    }
  }
}
