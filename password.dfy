/** The password strength rule applied at registration. */
module Password {
  import opened Text

  const TooShort := "Password must be at least 8 characters long"
  const NeedUpper := "Password must contain at least one uppercase letter"
  const NeedLower := "Password must contain at least one lowercase letter"
  const NeedNumber := "Password must contain at least one number"
  const NeedSpecial := "Password must contain at least one special character (!@#$%^&*)"
  const Strong := "Password is strong"

  /** The minimum length, in bytes of the UTF-8 encoding. */
  const MinLength: nat := 8

  const SpecialChars: set<char> := {'!', '@', '#', '$', '%', '^', '&', '*'}

  predicate IsUpper(c: char) { 'A' <= c <= 'Z' }
  predicate IsLower(c: char) { 'a' <= c <= 'z' }
  predicate IsDigit(c: char) { '0' <= c <= '9' }
  predicate IsSpecial(c: char) { c in SpecialChars }

  /** A character that counts for none of the four requirements. */
  predicate IsOther(c: char) { !IsUpper(c) && !IsLower(c) && !IsDigit(c) && !IsSpecial(c) }

  predicate HasUpper(p: string) { exists i :: 0 <= i < |p| && IsUpper(p[i]) }
  predicate HasLower(p: string) { exists i :: 0 <= i < |p| && IsLower(p[i]) }
  predicate HasDigit(p: string) { exists i :: 0 <= i < |p| && IsDigit(p[i]) }
  predicate HasSpecial(p: string) { exists i :: 0 <= i < |p| && IsSpecial(p[i]) }

  /** The verdict on a password: too short first, then the first missing
      character class in the order upper case, lower case, digit, special. */
  function Verdict(p: string): (bool, string) {
    if Utf8Length(p) < MinLength then (false, TooShort)
    else if !HasUpper(p) then (false, NeedUpper)
    else if !HasLower(p) then (false, NeedLower)
    else if !HasDigit(p) then (false, NeedNumber)
    else if !HasSpecial(p) then (false, NeedSpecial)
    else (true, Strong)
  }

  /** ValidatePasswordStrength: one pass over the runes sets a flag per class;
      the flags are then checked in order. */
  method ValidatePasswordStrength(password: string) returns (isStrong: bool, message: string)
    ensures (isStrong, message) == Verdict(password)
  {
    if Utf8Length(password) < MinLength {
      return false, TooShort;
    }
    var hasUpper, hasLower, hasNumber, hasSpecial := false, false, false, false;
    for i := 0 to |password|
      invariant hasUpper <==> exists k :: 0 <= k < i && IsUpper(password[k])
      invariant hasLower <==> exists k :: 0 <= k < i && IsLower(password[k])
      invariant hasNumber <==> exists k :: 0 <= k < i && IsDigit(password[k])
      invariant hasSpecial <==> exists k :: 0 <= k < i && IsSpecial(password[k])
    {
      var c := password[i];
      if 'A' <= c <= 'Z' {
        hasUpper := true;
      } else if 'a' <= c <= 'z' {
        hasLower := true;
      } else if '0' <= c <= '9' {
        hasNumber := true;
      } else if c == '!' || c == '@' || c == '#' || c == '$' || c == '%' || c == '^' || c == '&' || c == '*' {
        hasSpecial := true;
      }
    }
    if !hasUpper {
      return false, NeedUpper;
    }
    if !hasLower {
      return false, NeedLower;
    }
    if !hasNumber {
      return false, NeedNumber;
    }
    if !hasSpecial {
      return false, NeedSpecial;
    }
    return true, Strong;
  }

  /** A password is strong exactly when it is long enough and holds all four
      classes, and only a strong password gets the "strong" message. */
  lemma StrongIffAllClasses(p: string)
    ensures Verdict(p).0 <==>
      Utf8Length(p) >= MinLength && HasUpper(p) && HasLower(p) && HasDigit(p) && HasSpecial(p)
    ensures Verdict(p).0 <==> Verdict(p).1 == Strong
    ensures Verdict(p).1 in {TooShort, NeedUpper, NeedLower, NeedNumber, NeedSpecial, Strong}
  {
  }

  /** The length is measured in bytes: a password of ASCII characters needs
      eight of them, and any shorter password is refused before its characters
      are examined. */
  lemma {:induction false} LengthComesFirst(p: string)
    ensures IsAscii(p) ==> (Utf8Length(p) >= MinLength <==> |p| >= MinLength)
    ensures |p| >= MinLength ==> Utf8Length(p) >= MinLength
    ensures Utf8Length(p) < MinLength ==> Verdict(p) == (false, TooShort)
  {
  }

  /** Seven runes, ten bytes: accepted, although the message speaks of eight
      characters. */
  lemma SevenRunesAccepted()
    ensures Verdict("Aa1!ééé").0
  {
    var p := "Aa1!ééé";
    assert Utf8Length(p[..1]) == 1;
    assert Utf8Length(p[..2]) == 2;
    assert Utf8Length(p[..3]) == 3;
    assert Utf8Length(p[..4]) == 4;
    assert Utf8Length(p[..5]) == 6;
    assert Utf8Length(p[..6]) == 8;
    assert p[..7] == p;
    assert IsUpper(p[0]) && IsLower(p[1]) && IsDigit(p[2]) && IsSpecial(p[3]);
  }

  /** Replacing one rune by another of the same UTF-8 width keeps the length. */
  lemma {:induction false} Utf8LengthUpdate(p: string, i: nat, c: char)
    requires i < |p| && RuneWidth(c) == RuneWidth(p[i])
    ensures Utf8Length(p[i := c]) == Utf8Length(p)
    decreases |p|
  {
    var q := p[i := c];
    assert q[..|q| - 1] == if i == |p| - 1 then p[..|p| - 1] else p[..|p| - 1][i := c];
    if i < |p| - 1 {
      Utf8LengthUpdate(p[..|p| - 1], i, c);
    }
  }

  /** Characters outside the four classes meet no requirement: swapping one for
      another of the same width never changes the verdict. */
  lemma OtherCharactersIrrelevant(p: string, i: nat, c: char)
    requires i < |p| && IsOther(p[i]) && IsOther(c) && RuneWidth(c) == RuneWidth(p[i])
    ensures Verdict(p[i := c]) == Verdict(p)
  {
    var q := p[i := c];
    Utf8LengthUpdate(p, i, c);
    assert forall k :: 0 <= k < |p| && k != i ==> q[k] == p[k];
    assert HasUpper(q) <==> HasUpper(p);
    assert HasLower(q) <==> HasLower(p);
    assert HasDigit(q) <==> HasDigit(p);
    assert HasSpecial(q) <==> HasSpecial(p);
  }
}
