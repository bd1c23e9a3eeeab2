/** String operations the dashboard relies on: Python's ordering of `str`
    values (used by `sorted` and by `sort_values("name")`), ASCII lower-casing
    and the substring test behind a case-insensitive name search. */
module Text {

  /** Python's `a < b` on strings: lexicographic by code point, and a proper
      prefix sorts before the longer string. */
  predicate Less(a: string, b: string)
    decreases |a|
    ensures b == [] ==> !Less(a, b)
    ensures a == [] ==> (Less(a, b) <==> b != [])
    ensures |a| < |b| && a == b[..|a|] ==> Less(a, b)
  {
    b != [] && (a == [] || a[0] < b[0] || (a[0] == b[0] && Less(a[1..], b[1..])))
  }

  /** `a <= b` on strings. */
  predicate AtMost(a: string, b: string) {
    a == b || Less(a, b)
  }

  lemma {:induction false} LessIrreflexive(a: string)
    ensures !Less(a, a)
  {
    if a != [] {
      LessIrreflexive(a[1..]);
    }
  }

  lemma {:induction false} LessTransitive(a: string, b: string, c: string)
    requires Less(a, b) && Less(b, c)
    ensures Less(a, c)
  {
    if a != [] && a[0] == b[0] && b[0] == c[0] {
      LessTransitive(a[1..], b[1..], c[1..]);
    }
  }

  /** Any two strings are equal or ordered one way or the other. */
  lemma {:induction false} LessTrichotomy(a: string, b: string)
    ensures a == b || Less(a, b) || Less(b, a)
  {
    if a != [] && b != [] && a[0] == b[0] {
      LessTrichotomy(a[1..], b[1..]);
      if a[1..] == b[1..] {
      }
    }
  }

  /** ASCII upper-case letters to lower case; every other character unchanged. */
  function LowerChar(c: char): char {
    if 'A' <= c <= 'Z' then (c as int + 32) as char else c
  }

  /** The string with every ASCII letter in lower case. */
  function Lower(s: string): string {
    seq(|s|, i requires 0 <= i < |s| => LowerChar(s[i]))
  }

  /** `q` occurs in `s` starting at position `i`. */
  predicate OccursAt(q: string, s: string, i: int) {
    0 <= i && i + |q| <= |s| && s[i..i + |q|] == q
  }

  /** Python's `q in s`: `q` is a prefix of `s` or occurs in its tail. */
  predicate Contains(s: string, q: string)
    decreases |s|
  {
    (|q| <= |s| && s[..|q|] == q) || (s != [] && Contains(s[1..], q))
  }

  /** The recursive test finds an occurrence exactly when there is one. */
  lemma {:induction false} ContainsIff(s: string, q: string)
    ensures Contains(s, q) <==> exists i :: OccursAt(q, s, i)
  {
    if |q| <= |s| && s[..|q|] == q {
      assert OccursAt(q, s, 0);
    } else if s == [] {
      assert forall i :: !OccursAt(q, s, i);
    } else {
      ContainsIff(s[1..], q);
      if Contains(s[1..], q) {
        var i :| OccursAt(q, s[1..], i);
        assert s[1..][i..i + |q|] == s[i + 1..i + 1 + |q|];
        assert OccursAt(q, s, i + 1);
      } else {
        forall i | OccursAt(q, s, i)
          ensures false
        {
          assert i != 0;
          assert s[1..][i - 1..i - 1 + |q|] == s[i..i + |q|];
          assert OccursAt(q, s[1..], i - 1);
        }
      }
    }
  }

  /** pandas `str.contains(q, case=False)` with `q` read literally: `q` occurs
      in `s` once both are lower-cased. */
  predicate ContainsIgnoringCase(s: string, q: string) {
    Contains(Lower(s), Lower(q))
  }
}
