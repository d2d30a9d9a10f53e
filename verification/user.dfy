/**
 * The User model's own validation rules: the username (present, unique
 * ignoring case, 3 to 20 characters, only ASCII letters, digits and
 * underscores) and the password complexity check.
 */
module UserRules {
  import opened Text

  // ------------------------------------------------------------ characters

  predicate IsAsciiUpper(c: char) { 'A' <= c <= 'Z' }

  predicate IsAsciiLower(c: char) { 'a' <= c <= 'z' }

  /** `[a-zA-Z0-9_]`, Ruby's `\w` */
  predicate IsWordChar(c: char) {
    IsAsciiUpper(c) || IsAsciiLower(c) || IsDigit(c) || c == '_'
  }

  /** `[\d\W]`: a digit or any character outside `\w`, i.e. anything but a letter or `_`. */
  predicate IsDigitOrSymbol(c: char) {
    IsDigit(c) || !IsWordChar(c)
  }

  /** `String#blank?`: empty or only whitespace. */
  function IsBlank(s: string): (b: bool)
    ensures b <==> forall i :: 0 <= i < |s| ==> IsRubySpace(s[i])
  {
    if s == [] then true else IsRubySpace(s[0]) && IsBlank(s[1..])
  }

  function AllWordChars(s: string): (b: bool)
    ensures b <==> forall i :: 0 <= i < |s| ==> IsWordChar(s[i])
  {
    if s == [] then true else IsWordChar(s[0]) && AllWordChars(s[1..])
  }

  function HasUpper(s: string): (b: bool)
    ensures b <==> exists i :: 0 <= i < |s| && IsAsciiUpper(s[i])
  {
    if s == [] then false
    else if IsAsciiUpper(s[0]) then true
    else
      assert forall i :: 1 <= i < |s| ==> s[i] == s[1..][i - 1];
      HasUpper(s[1..])
  }

  function HasDigitOrSymbol(s: string): (b: bool)
    ensures b <==> exists i :: 0 <= i < |s| && IsDigitOrSymbol(s[i])
  {
    if s == [] then false
    else if IsDigitOrSymbol(s[0]) then true
    else
      assert forall i :: 1 <= i < |s| ==> s[i] == s[1..][i - 1];
      HasDigitOrSymbol(s[1..])
  }

  function HasNewline(s: string): (b: bool)
    ensures b <==> exists i :: 0 <= i < |s| && s[i] == '\n'
  {
    if s == [] then false
    else if s[0] == '\n' then true
    else
      assert forall i :: 1 <= i < |s| ==> s[i] == s[1..][i - 1];
      HasNewline(s[1..])
  }

  /** ASCII lower-casing, as `LOWER(username)` compares names. */
  function Lower(s: string): (r: string)
    ensures |r| == |s|
    ensures forall i :: 0 <= i < |s| ==> r[i] == (if IsAsciiUpper(s[i]) then (s[i] as int + 32) as char else s[i])
  {
    if s == [] then []
    else [if IsAsciiUpper(s[0]) then (s[0] as int + 32) as char else s[0]] + Lower(s[1..])
  }

  // ------------------------------------------------------------ username

  datatype UsernameError = UsernameBlank | UsernameTaken | UsernameTooShort | UsernameTooLong | UsernameBadFormat

  /**
   * The uniqueness query `LOWER(username) = LOWER(name)` over the existing
   * usernames: true exactly when one of them equals `name` ignoring case.
   */
  function Taken(name: string, existing: seq<string>): (b: bool)
    ensures b <==> exists i :: 0 <= i < |existing| && Lower(existing[i]) == Lower(name)
  {
    if existing == [] then false
    else Lower(existing[|existing| - 1]) == Lower(name) || Taken(name, existing[..|existing| - 1])
  }

  /**
   * The username errors, in the order the validators run: presence,
   * case-insensitive uniqueness against the existing usernames, length
   * 3..20, and the format `\A[a-zA-Z0-9_]+\z`.
   */
  function UsernameErrors(name: string, existing: seq<string>): (errs: seq<UsernameError>)
    ensures UsernameBlank in errs <==> IsBlank(name)
    ensures UsernameTaken in errs <==> Taken(name, existing)
    ensures UsernameTooShort in errs <==> |name| < 3
    ensures UsernameTooLong in errs <==> |name| > 20
    ensures UsernameBadFormat in errs <==> name == [] || exists i :: 0 <= i < |name| && !IsWordChar(name[i])
  {
    (if IsBlank(name) then [UsernameBlank] else []) +
    (if Taken(name, existing) then [UsernameTaken] else []) +
    (if |name| < 3 then [UsernameTooShort] else []) +
    (if |name| > 20 then [UsernameTooLong] else []) +
    (if name != [] && AllWordChars(name) then [] else [UsernameBadFormat])
  }

  /**
   * A username passes exactly when it has 3 to 20 characters, each an ASCII
   * letter, digit or underscore, and no existing username equals it
   * ignoring case.
   */
  lemma UsernameValidIff(name: string, existing: seq<string>)
    ensures UsernameErrors(name, existing) == [] <==>
      3 <= |name| <= 20 && (forall i :: 0 <= i < |name| ==> IsWordChar(name[i])) && !Taken(name, existing)
  {
    if 3 <= |name| <= 20 && (forall i :: 0 <= i < |name| ==> IsWordChar(name[i])) && !Taken(name, existing) {
      assert !IsRubySpace(name[0]);
    }
  }

  /** Uniqueness ignores case: two names differing only in letter case are both taken or both free. */
  lemma TakenIgnoresCase(a: string, b: string, existing: seq<string>)
    requires Lower(a) == Lower(b)
    ensures Taken(a, existing) <==> Taken(b, existing)
  {
  }

  /** An existing username blocks every spelling of it that differs only in letter case. */
  lemma ExistingNameBlocksCaseVariants(existing: seq<string>, i: nat, name: string)
    requires i < |existing| && Lower(existing[i]) == Lower(name)
    ensures UsernameTaken in UsernameErrors(name, existing)
  {
  }

  /** Lower-casing is idempotent, so a name and its lower-case form collide. */
  lemma {:induction false} LowerIdempotent(s: string)
    ensures Lower(Lower(s)) == Lower(s)
  {
    if s != [] {
      LowerIdempotent(s[1..]);
    }
  }

  /** Once "Alice" exists, "alice" is taken. */
  lemma LowerCaseSpellingTaken(existing: seq<string>, i: nat)
    requires i < |existing|
    ensures UsernameTaken in UsernameErrors(Lower(existing[i]), existing)
  {
    LowerIdempotent(existing[i]);
    ExistingNameBlocksCaseVariants(existing, i, Lower(existing[i]));
  }

  // ------------------------------------------------------------ password

  /**
   * `\A(?=.*[A-Z])(?=.*[\d\W]).{8,}\z`: at least 8 characters, none a
   * newline (`.` does not match one), with an ASCII uppercase letter and a
   * digit or non-word character.
   */
  predicate MatchesComplexity(p: string) {
    |p| >= 8 && !HasNewline(p) && HasUpper(p) && HasDigitOrSymbol(p)
  }

  /** `password_complexity`: true when no error is added. A blank password skips the check. */
  function PasswordComplexityOk(p: string): (ok: bool)
    ensures IsBlank(p) ==> ok
    ensures !IsBlank(p) ==> (ok <==>
      |p| >= 8 &&
      (forall i :: 0 <= i < |p| ==> p[i] != '\n') &&
      (exists i :: 0 <= i < |p| && IsAsciiUpper(p[i])) &&
      (exists i :: 0 <= i < |p| && (IsDigit(p[i]) || !(IsAsciiUpper(p[i]) || IsAsciiLower(p[i]) || p[i] == '_'))))
  {
    IsBlank(p) || MatchesComplexity(p)
  }

  /** An underscore is a word character: it never counts as the required digit or symbol. */
  lemma UnderscoreDoesNotQualify(p: string)
    requires !IsBlank(p) && !HasDigitOrSymbol(p)
    ensures !PasswordComplexityOk(p + "_")
  {
    var q := p + "_";
    assert !IsBlank(q) by {
      var i :| 0 <= i < |p| && !IsRubySpace(p[i]);
      assert q[i] == p[i];
    }
    forall i | 0 <= i < |q|
      ensures !IsDigitOrSymbol(q[i])
    {
      if i < |p| {
        assert q[i] == p[i];
      }
    }
  }

  /** An uppercase letter and a digit pass. */
  lemma PasswordWithDigitAccepted()
    ensures PasswordComplexityOk("Password1")
  {
    var p := "Password1";
    assert p[0] == 'P' && p[8] == '1';
    forall i | 0 <= i < |p|
      ensures p[i] != '\n'
    {
    }
  }

  /** An uppercase letter and a symbol pass. */
  lemma PasswordWithSymbolAccepted()
    ensures PasswordComplexityOk("Secret!pass")
  {
    var p := "Secret!pass";
    assert p[0] == 'S' && p[6] == '!';
    forall i | 0 <= i < |p|
      ensures p[i] != '\n'
    {
    }
  }

  /** Fewer than 8 characters fail. */
  lemma ShortPasswordRejected()
    ensures !PasswordComplexityOk("Pass1")
  {
    assert !IsRubySpace("Pass1"[0]);
  }

  /** A password whose only candidate "symbol" is an underscore fails. */
  lemma UnderscorePasswordRejected()
    ensures !PasswordComplexityOk("Password_")
  {
    var p := "Password";
    assert !IsRubySpace(p[0]);
    forall i | 0 <= i < |p|
      ensures !IsDigitOrSymbol(p[i])
    {
    }
    UnderscoreDoesNotQualify(p);
    assert p + "_" == "Password_";
  }

  /** A password without an uppercase letter fails. */
  lemma LowercasePasswordRejected()
    ensures !PasswordComplexityOk("password1")
  {
    var p := "password1";
    assert !IsRubySpace(p[0]);
    forall i | 0 <= i < |p|
      ensures !IsAsciiUpper(p[i])
    {
    }
  }
}
