/**
 * `validate_password_strength` (backend/security.py): length first, then
 * an upper-case letter, a lower-case letter and a digit, each failure
 * reported with its own message. Character classes are the ASCII ones.
 */
module Security {
  import opened Text

  const MinLength := 8

  const TooShort := "密码长度至少8个字符"
  const NeedsUpper := "密码必须包含至少一个大写字母"
  const NeedsLower := "密码必须包含至少一个小写字母"
  const NeedsDigit := "密码必须包含至少一个数字"

  predicate IsUpper(c: char) { 'A' <= c <= 'Z' }
  predicate IsLower(c: char) { 'a' <= c <= 'z' }

  /** `any(test(c) for c in password)`. */
  predicate HasUpper(p: string) { exists i :: 0 <= i < |p| && IsUpper(p[i]) }
  predicate HasLower(p: string) { exists i :: 0 <= i < |p| && IsLower(p[i]) }
  predicate HasDigit(p: string) { exists i :: 0 <= i < |p| && IsDigit(p[i]) }

  /** The four requirements, with no order among them. */
  predicate Strong(p: string)
  {
    |p| >= MinLength && HasUpper(p) && HasLower(p) && HasDigit(p)
  }

  /** `validate_password_strength`: `(ok, message)`, reporting the first requirement, in source order, that fails. */
  function ValidatePasswordStrength(p: string): (r: (bool, string))
    ensures r.0 <==> Strong(p)
    ensures r.0 <==> r.1 == ""
    ensures |p| < MinLength ==> r.1 == TooShort
    ensures |p| >= MinLength && !HasUpper(p) ==> r.1 == NeedsUpper
    ensures |p| >= MinLength && HasUpper(p) && !HasLower(p) ==> r.1 == NeedsLower
    ensures |p| >= MinLength && HasUpper(p) && HasLower(p) && !HasDigit(p) ==> r.1 == NeedsDigit
  {
    if |p| < MinLength then (false, TooShort)
    else if !HasUpper(p) then (false, NeedsUpper)
    else if !HasLower(p) then (false, NeedsLower)
    else if !HasDigit(p) then (false, NeedsDigit)
    else (true, "")
  }

  /** Every reported failure names a requirement the password really misses. */
  lemma FailureIsGenuine(p: string)
    ensures var r := ValidatePasswordStrength(p);
            && (r.1 == TooShort <==> |p| < MinLength)
            && (r.1 == NeedsUpper ==> !HasUpper(p))
            && (r.1 == NeedsLower ==> !HasLower(p))
            && (r.1 == NeedsDigit ==> !HasDigit(p))
  {
  }

  /**
   * Fewer than eight characters never pass, whatever they are; eight or
   * more with all three classes always do. `Abcdef1` and `Abcdefg1` are the
   * two sides of the boundary.
   */
  lemma LengthBoundary(p: string)
    ensures |p| < MinLength ==> ValidatePasswordStrength(p) == (false, TooShort)
    ensures |p| >= MinLength && HasUpper(p) && HasLower(p) && HasDigit(p) ==> ValidatePasswordStrength(p) == (true, "")
    ensures !ValidatePasswordStrength("Abcdef1").0
    ensures ValidatePasswordStrength("Abcdefg1").0
  {
    assert IsUpper("Abcdefg1"[0]) && IsLower("Abcdefg1"[1]) && IsDigit("Abcdefg1"[7]);
  }
}
