/**
 * Password strength: six yes/no conditions counted into a score from 0 to
 * 6, mapped to three tiers. The character classes are ASCII; every other
 * code point counts as a symbol.
 */
module Strength {
  import opened Wrappers
  import opened Text

  datatype Tier = Weak | Medium | Strong

  predicate IsAsciiLower(c: char) { 'a' <= c <= 'z' }

  predicate IsAsciiUpper(c: char) { 'A' <= c <= 'Z' }

  /** `[^a-zA-Z0-9]`. */
  predicate IsSymbol(c: char) { !IsAsciiLower(c) && !IsAsciiUpper(c) && !IsDigit(c) }

  /** `/[a-z]/.test(s)`. */
  predicate HasLower(s: string) { exists i | 0 <= i < |s| :: IsAsciiLower(s[i]) }

  /** `/[A-Z]/.test(s)`. */
  predicate HasUpper(s: string) { exists i | 0 <= i < |s| :: IsAsciiUpper(s[i]) }

  /** `/[0-9]/.test(s)`. */
  predicate HasDigit(s: string) { exists i | 0 <= i < |s| :: IsDigit(s[i]) }

  /** `/[^a-zA-Z0-9]/.test(s)`. */
  predicate HasSymbol(s: string) { exists i | 0 <= i < |s| :: IsSymbol(s[i]) }

  function Point(b: bool): nat { if b then 1 else 0 }

  /** The number of the six conditions `p` satisfies. */
  function Score(p: string): nat {
    Point(|p| >= 8) + Point(|p| >= 12) + Point(HasLower(p)) + Point(HasUpper(p))
      + Point(HasDigit(p)) + Point(HasSymbol(p))
  }

  /** `strength <= 2` is weak, `strength <= 4` medium, anything higher strong. */
  function TierOf(score: nat): Tier {
    if score <= 2 then Weak else if score <= 4 then Medium else Strong
  }

  /** The tier as the source computes it: a counter incremented once per condition met. */
  method CalculatePasswordStrength(password: string) returns (tier: Tier)
    ensures tier == TierOf(Score(password))
    ensures tier == Weak <==> Score(password) <= 2
    ensures tier == Strong <==> Score(password) >= 5
  {
    var strength: nat := 0;
    if |password| >= 8 { strength := strength + 1; }
    if |password| >= 12 { strength := strength + 1; }
    if HasLower(password) { strength := strength + 1; }
    if HasUpper(password) { strength := strength + 1; }
    if HasDigit(password) { strength := strength + 1; }
    if HasSymbol(password) { strength := strength + 1; }
    if strength <= 2 {
      tier := Weak;
    } else if strength <= 4 {
      tier := Medium;
    } else {
      tier := Strong;
    }
  }

  /**
   * What the strength indicator shows once the password validator has run:
   * a password long enough to pass is rated, a failing one leaves the
   * indicator as it was.
   */
  function ShownAfterCheck(password: string, shown: Option<Tier>): Option<Tier> {
    if |password| >= 8 then Some(TierOf(Score(password))) else shown
  }

  /** The score counts six conditions, so it lies between 0 and 6, and it is 6 exactly when all hold. */
  lemma ScoreBounds(p: string)
    ensures 0 <= Score(p) <= 6
    ensures Score(p) == 6 <==> |p| >= 12 && HasLower(p) && HasUpper(p) && HasDigit(p) && HasSymbol(p)
    ensures Score(p) == 0 <==> |p| < 8 && !HasLower(p) && !HasUpper(p) && !HasDigit(p) && !HasSymbol(p)
  {}

  /** Every code point falls in exactly one of the four classes. */
  lemma ClassesPartition(c: char)
    ensures Point(IsAsciiLower(c)) + Point(IsAsciiUpper(c)) + Point(IsDigit(c)) + Point(IsSymbol(c)) == 1
  {}

  /** A non-empty password meets at least one class condition, so only the empty one scores 0. */
  lemma NonEmptyScoresAtLeastOne(p: string)
    requires p != []
    ensures Score(p) >= 1
  {
    ClassesPartition(p[0]);
  }

  /** Appending characters never lowers the score: every condition that held still holds. */
  lemma ScoreMonotone(p: string, q: string)
    ensures Score(p) <= Score(p + q)
  {
    var s := p + q;
    if HasLower(p) { var i :| 0 <= i < |p| && IsAsciiLower(p[i]); assert s[i] == p[i]; }
    if HasUpper(p) { var i :| 0 <= i < |p| && IsAsciiUpper(p[i]); assert s[i] == p[i]; }
    if HasDigit(p) { var i :| 0 <= i < |p| && IsDigit(p[i]); assert s[i] == p[i]; }
    if HasSymbol(p) { var i :| 0 <= i < |p| && IsSymbol(p[i]); assert s[i] == p[i]; }
  }

  /** Higher scores never give a lower tier. */
  lemma TierMonotone(m: nat, n: nat)
    requires m <= n
    ensures TierOf(m) == Strong ==> TierOf(n) == Strong
    ensures TierOf(n) == Weak ==> TierOf(m) == Weak
  {}

  /** Below eight characters only the four class conditions can hold, so the tier is never strong. */
  lemma ShortPasswordNeverStrong(p: string)
    requires |p| < 8
    ensures Score(p) <= 4 && TierOf(Score(p)) != Strong
  {}

  /** A password of eight to eleven characters is strong exactly when it has all four classes. */
  lemma MidLengthStrongNeedsAllClasses(p: string)
    requires 8 <= |p| < 12
    ensures TierOf(Score(p)) == Strong <==> HasLower(p) && HasUpper(p) && HasDigit(p) && HasSymbol(p)
  {}

  /** The empty password is weak: the strength function is total. */
  lemma EmptyIsWeak()
    ensures TierOf(Score("")) == Weak
  {}

  /** `"password"`: eight characters and lower case only, score 2. */
  lemma LowerCaseWordIsWeak()
    ensures Score("password") == 2 && TierOf(Score("password")) == Weak
  {
    var p := "password";
    assert IsAsciiLower(p[0]);
  }

  /** `"StrongPassword123!@#"` meets all six conditions. */
  lemma AllConditionsIsStrong()
    ensures Score("StrongPassword123!@#") == 6 && TierOf(Score("StrongPassword123!@#")) == Strong
  {
    var p := "StrongPassword123!@#";
    assert IsAsciiUpper(p[0]) && IsAsciiLower(p[1]) && IsDigit(p[14]) && IsSymbol(p[17]);
  }

  /**
   * `"MediumPass123"` has thirteen characters, lower, upper and digits but
   * no symbol: score 5, which is strong, not medium.
   */
  lemma MediumPassIsStrong()
    ensures Score("MediumPass123") == 5 && TierOf(Score("MediumPass123")) == Strong
  {
    var p := "MediumPass123";
    assert IsAsciiUpper(p[0]) && IsAsciiLower(p[1]) && IsDigit(p[10]);
    assert !HasSymbol(p);
  }

  /** `"Password123"`: eleven characters with lower, upper and digits, score 4. */
  lemma ElevenCharsNoSymbolIsMedium()
    ensures Score("Password123") == 4 && TierOf(Score("Password123")) == Medium
  {
    var p := "Password123";
    assert IsAsciiUpper(p[0]) && IsAsciiLower(p[1]) && IsDigit(p[8]);
    assert !HasSymbol(p);
  }
}
