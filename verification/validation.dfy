/** The field validators of the sign-in and sign-up forms: name, e-mail and
    password, each yielding the first rule the value breaks. */
module Validation {
  import opened Text

  datatype FieldError =
    | Required               // empty after trimming (empty, for the password)
    | BadFormat              // the e-mail pattern does not match
    | TooShort               // below the minimum length
    | MissingCharacterClass  // the password lacks one of the four classes

  datatype Verdict = Accepted | Rejected(reason: FieldError)

  const MinPasswordLength := 8
  const MinNameLength := 2
  const SpecialChars: string := "!@#$%^&*(),.?\":{}|<>"

  /* ---------- e-mail ---------- */

  /** `[^\s@]+`: a non-empty run without white space or '@'. */
  predicate Atom(s: string) {
    |s| > 0 && forall i :: 0 <= i < |s| ==> !IsSpace(s[i]) && s[i] != '@'
  }

  /** `[^\s@]+\.[^\s@]+`: some '.' with an atom on each side. */
  predicate DottedDomain(d: string) {
    exists j :: 0 <= j < |d| && d[j] == '.' && Atom(d[..j]) && Atom(d[j + 1..])
  }

  /** The whole pattern `^[^\s@]+@[^\s@]+\.[^\s@]+$`. */
  predicate EmailShape(s: string) {
    exists k :: 0 <= k < |s| && s[k] == '@' && Atom(s[..k]) && DottedDomain(s[k + 1..])
  }

  /** `validateEmail`: the trimmed value must be present and match the pattern. */
  function ValidateEmail(raw: string): (v: Verdict)
    ensures v == Accepted <==> EmailShape(Trim(raw))
    ensures v == Rejected(Required) <==> Trim(raw) == ""
    ensures v == Rejected(BadFormat) <==> Trim(raw) != "" && !EmailShape(Trim(raw))
  {
    var email := Trim(raw);
    if email == "" then Rejected(Required)
    else if !EmailShape(email) then Rejected(BadFormat)
    else Accepted
  }

  lemma AtomFacts(a: string)
    requires Atom(a)
    ensures NoSpace(a)
    ensures multiset(a)['@'] == 0
  {
    assert '@' !in a;
  }

  lemma NoSpaceConcat(a: string, b: string)
    requires NoSpace(a) && NoSpace(b)
    ensures NoSpace(a + b)
  {
    forall i | 0 <= i < |a + b|
      ensures !IsSpace((a + b)[i])
    {
      if i >= |a| {
        assert (a + b)[i] == b[i - |a|];
      }
    }
  }

  /** A string is the part before offset `k`, the character there, and the rest. */
  lemma SplitAround(s: string, k: int)
    requires 0 <= k < |s|
    ensures s == s[..k] + [s[k]] + s[k + 1..]
  {
  }

  /** White space and '@' counts of three pieces put together. */
  lemma JoinThree(a: string, x: char, b: string)
    requires NoSpace(a) && !IsSpace(x) && NoSpace(b)
    ensures NoSpace(a + [x] + b)
    ensures multiset(a + [x] + b)['@'] == multiset(a)['@'] + (if x == '@' then 1 else 0) + multiset(b)['@']
  {
    NoSpaceConcat(a, [x]);
    NoSpaceConcat(a + [x], b);
  }

  /** A dotted domain holds no white space and no '@'. */
  lemma DottedDomainFacts(d: string)
    requires DottedDomain(d)
    ensures NoSpace(d)
    ensures multiset(d)['@'] == 0
  {
    var j :| 0 <= j < |d| && d[j] == '.' && Atom(d[..j]) && Atom(d[j + 1..]);
    SplitAround(d, j);
    AtomFacts(d[..j]);
    AtomFacts(d[j + 1..]);
    JoinThree(d[..j], d[j], d[j + 1..]);
  }

  /** What the pattern implies: exactly one '@', no white space, and after
      the '@' a domain holding a '.'. */
  lemma EmailShapeParts(s: string)
    requires EmailShape(s)
    ensures NoSpace(s)
    ensures multiset(s)['@'] == 1
    ensures exists k :: 0 <= k < |s| && s[k] == '@' && DottedDomain(s[k + 1..])
  {
    var k :| 0 <= k < |s| && s[k] == '@' && Atom(s[..k]) && DottedDomain(s[k + 1..]);
    SplitAround(s, k);
    AtomFacts(s[..k]);
    DottedDomainFacts(s[k + 1..]);
    JoinThree(s[..k], s[k], s[k + 1..]);
  }

  /* ---------- password ---------- */

  predicate HasUpper(s: string) { exists i :: 0 <= i < |s| && IsUpper(s[i]) }
  predicate HasLower(s: string) { exists i :: 0 <= i < |s| && IsLowerLetter(s[i]) }
  predicate HasDigit(s: string) { exists i :: 0 <= i < |s| && IsDigit(s[i]) }
  predicate HasSpecial(s: string) { exists i :: 0 <= i < |s| && s[i] in SpecialChars }

  /** `validatePassword` (the value is not trimmed): required, then at least
      eight UTF-16 code units, then all four character classes. */
  function ValidatePassword(p: string): (v: Verdict)
    ensures v == Accepted <==>
              Utf16Length(p) >= MinPasswordLength && HasUpper(p) && HasLower(p) && HasDigit(p) && HasSpecial(p)
    ensures v == Rejected(Required) <==> p == ""
    ensures v == Rejected(TooShort) <==> 0 < Utf16Length(p) < MinPasswordLength
    ensures v == Rejected(MissingCharacterClass) <==>
              Utf16Length(p) >= MinPasswordLength && !(HasUpper(p) && HasLower(p) && HasDigit(p) && HasSpecial(p))
  {
    if p == "" then Rejected(Required)
    else if Utf16Length(p) < MinPasswordLength then Rejected(TooShort)
    else if !(HasUpper(p) && HasLower(p) && HasDigit(p) && HasSpecial(p)) then Rejected(MissingCharacterClass)
    else Accepted
  }

  /* ---------- name ---------- */

  /** `validateName`: the trimmed name must have at least two UTF-16 code units. */
  function ValidateName(raw: string): (v: Verdict)
    ensures v == Accepted <==> Utf16Length(Trim(raw)) >= MinNameLength
    ensures v == Rejected(Required) <==> Trim(raw) == ""
    ensures v == Rejected(TooShort) <==> Utf16Length(Trim(raw)) == 1
  {
    var name := Trim(raw);
    if name == "" then Rejected(Required)
    else if Utf16Length(name) < MinNameLength then Rejected(TooShort)
    else Accepted
  }

  /** Length counts UTF-16 code units: a single emoji is a name of two. */
  lemma EmojiNameAccepted()
    ensures ValidateName("\U{1F600}") == Accepted
  {
    var n := "\U{1F600}";
    assert NoSpace(n);
    assert Utf16Length(n) == 2 + Utf16Length(n[1..]);
  }

  /** Four ASCII characters and two emoji make a password of eight code units. */
  lemma EmojiPasswordAccepted()
    ensures ValidatePassword("Aa1!\U{1F600}\U{1F600}") == Accepted
  {
    var p := "Aa1!\U{1F600}\U{1F600}";
    assert HasUpper(p) by { assert IsUpper(p[0]); }
    assert HasLower(p) by { assert IsLowerLetter(p[1]); }
    assert HasDigit(p) by { assert IsDigit(p[2]); }
    assert HasSpecial(p) by { assert p[3] == SpecialChars[0]; }
    assert Utf16Length(p[5..]) == 2 by { assert p[5..][1..] == []; }
    assert Utf16Length(p[4..]) == 4 by { assert p[4..][1..] == p[5..]; }
    assert Utf16Length(p[3..]) == 5 by { assert p[3..][1..] == p[4..]; }
    assert Utf16Length(p[2..]) == 6 by { assert p[2..][1..] == p[3..]; }
    assert Utf16Length(p[1..]) == 7 by { assert p[1..][1..] == p[2..]; }
  }

  /** A concrete password the rules accept, and one each rule refuses. */
  lemma PasswordExamples()
    ensures ValidatePassword("Secret1!") == Accepted
    ensures ValidatePassword("Sec1!") == Rejected(TooShort)
    ensures ValidatePassword("secret12!") == Rejected(MissingCharacterClass)
  {
    AcceptedExample();
    TooShortExample();
    MissingClassExample();
  }

  lemma AcceptedExample()
    ensures ValidatePassword("Secret1!") == Accepted
  {
    var p := "Secret1!";
    assert HasUpper(p) by { assert IsUpper(p[0]); }
    assert HasLower(p) by { assert IsLowerLetter(p[1]); }
    assert HasDigit(p) by { assert IsDigit(p[6]); }
    assert HasSpecial(p) by { assert p[7] == SpecialChars[0]; }
    assert |p| == 8;
  }

  lemma TooShortExample()
    ensures ValidatePassword("Sec1!") == Rejected(TooShort)
  {
    var r := "Sec1!";
    assert Utf16Length(r[4..]) == 1 by { assert r[4..][1..] == []; }
    assert Utf16Length(r[3..]) == 2 by { assert r[3..][1..] == r[4..]; }
    assert Utf16Length(r[2..]) == 3 by { assert r[2..][1..] == r[3..]; }
    assert Utf16Length(r[1..]) == 4 by { assert r[1..][1..] == r[2..]; }
  }

  lemma MissingClassExample()
    ensures ValidatePassword("secret12!") == Rejected(MissingCharacterClass)
  {
    var q := "secret12!";
    assert !HasUpper(q) by {
      forall i | 0 <= i < |q| ensures !IsUpper(q[i]) { }
    }
  }

}
