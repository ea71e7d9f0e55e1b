/** What strcasecmp takes for the same letter. */
module Letters {
  import opened Ordering

  const UPPER: string := "ABCDEFGHIJKLMNOPQRSTUVWXYZ"
  const LOWER: string := "abcdefghijklmnopqrstuvwxyz"

  ghost predicate IsLetter(upper: char, lower: char, k: nat) {
    k < 26 && upper == UPPER[k] && lower == LOWER[k]
  }

  /** The same character, or the same letter in both cases. */
  ghost predicate SameLetter(c: char, d: char) {
    c == d || exists k :: IsLetter(c, d, k) || IsLetter(d, c, k)
  }

  lemma Codes(k: nat)
    requires k < 26
    ensures UPPER[k] == (65 + k) as char && LOWER[k] == (97 + k) as char
  {
  }

  lemma LowerOfPair(c: char, d: char, k: nat)
    requires IsLetter(c, d, k)
    ensures Lower(c) == d == Lower(d)
  {
    Codes(k);
  }

  lemma PairOfUpper(c: char)
    requires 'A' <= c <= 'Z'
    ensures IsLetter(c, Lower(c), c as int - 65)
  {
    Codes(c as int - 65);
  }

  lemma SameLetterIs(c: char, d: char)
    ensures Lower(c) == Lower(d) <==> SameLetter(c, d)
  {
    if k :| IsLetter(c, d, k) {
      LowerOfPair(c, d, k);
    }
    if k :| IsLetter(d, c, k) {
      LowerOfPair(d, c, k);
    }
    if c != d && Lower(c) == Lower(d) {
      if 'A' <= c <= 'Z' {
        PairOfUpper(c);
      } else {
        PairOfUpper(d);
      }
    }
  }

  /** Letters match in either case, all other characters only themselves. */
  lemma {:induction false} SameIgnoringCaseExactly(a: string, b: string)
    ensures SameIgnoringCase(a, b) <==> |a| == |b| && forall i :: 0 <= i < |a| ==> SameLetter(a[i], b[i])
  {
    forall i | 0 <= i < |a| && i < |b| ensures Lower(a[i]) == Lower(b[i]) <==> SameLetter(a[i], b[i]) {
      SameLetterIs(a[i], b[i]);
    }
  }
}
