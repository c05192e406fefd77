/**
 * The submit validation of the sign-up form (components/SignUpForm.tsx) and
 * the sign-in form (components/SignIn.tsx): a fixed chain of checks in which
 * the first failing check sets the error message, and success clears it.
 */
module AuthForms {
  import opened JsText

  const AllFieldsRequired := "All fields are required."
  const InvalidEmail := "Please enter a valid email address."
  const PasswordTooShort := "Password must be at least 6 characters long."
  const PasswordsDiffer := "Passwords do not match."

  /** What a submission does: `setError(message)`, or `setError("")` and the success alert. */
  datatype Submission = Rejected(error: string) | Accepted

  /* ---------------------------------------------------------------------- */
  /* The email shape /^[^\s@]+@[^\s@]+\.[^\s@]+$/                             */
  /* ---------------------------------------------------------------------- */

  /** Every character is matched by `[^\s@]`. */
  predicate NoSpaceOrAt(s: string)
  {
    forall i | 0 <= i < |s| :: !IsJsSpace(s[i]) && s[i] != '@'
  }

  /**
   * The language of the pattern: three non-empty runs of `[^\s@]`, the first
   * two joined by `@` and the last two by a dot.
   */
  ghost predicate MatchesEmailPattern(s: string)
  {
    exists a, b, c :: && a != "" && b != "" && c != ""
                      && NoSpaceOrAt(a) && NoSpaceOrAt(b) && NoSpaceOrAt(c)
                      && s == a + "@" + b + "." + c
  }

  /** The domain has a dot that is neither its first nor its last character. */
  predicate HasInnerDot(d: string)
  {
    exists j | 0 < j < |d| - 1 :: d[j] == '.'
  }

  /**
   * The check the pattern performs: one `@` after a non-empty local part, no
   * whitespace, and a domain with an inner dot.
   */
  predicate ValidEmail(s: string)
  {
    var at := IndexOf(s, "@");
    && at > 0
    && NoSpaceOrAt(s[..at])
    && NoSpaceOrAt(s[at + 1..])
    && HasInnerDot(s[at + 1..])
  }

  /** The check accepts exactly the strings the pattern matches. */
  lemma EmailPattern(s: string)
    ensures ValidEmail(s) <==> MatchesEmailPattern(s)
  {
    if ValidEmail(s) {
      ValidEmailMatches(s);
    }
    if MatchesEmailPattern(s) {
      var a, b, c :| && a != "" && b != "" && c != ""
                     && NoSpaceOrAt(a) && NoSpaceOrAt(b) && NoSpaceOrAt(c)
                     && s == a + "@" + b + "." + c;
      MatchIsValid(s, a, b, c);
    }
  }

  lemma ValidEmailMatches(s: string)
    requires ValidEmail(s)
    ensures MatchesEmailPattern(s)
  {
    var at := IndexOf(s, "@");
    var d := s[at + 1..];
    var j :| 0 < j < |d| - 1 && d[j] == '.';
    AtSign(s, at);
    Reassemble(s, at, j);
    NoSpaceOrAtSlices(d, j);
    assert s == s[..at] + "@" + d[..j] + "." + d[j + 1..];
  }

  lemma AtSign(s: string, at: int)
    requires OccursAt(s, "@", at)
    ensures 0 <= at < |s| && s[at] == '@'
  {
    assert s[at..at + 1][0] == s[at];
  }

  /** A text cut at its `@` and at a dot of the domain. */
  lemma Reassemble(s: string, at: nat, j: nat)
    requires at < |s| && s[at] == '@' && j < |s[at + 1..]| && s[at + 1..][j] == '.'
    ensures s == s[..at] + "@" + s[at + 1..][..j] + "." + s[at + 1..][j + 1..]
  {
    var d := s[at + 1..];
    assert d == d[..j] + "." + d[j + 1..];
    assert s == s[..at] + "@" + d;
  }

  lemma NoSpaceOrAtSlices(d: string, j: nat)
    requires NoSpaceOrAt(d) && j < |d|
    ensures NoSpaceOrAt(d[..j]) && NoSpaceOrAt(d[j + 1..])
  {
  }

  lemma MatchIsValid(s: string, a: string, b: string, c: string)
    requires a != "" && b != "" && c != "" && NoSpaceOrAt(a) && NoSpaceOrAt(b) && NoSpaceOrAt(c)
    requires s == a + "@" + b + "." + c
    ensures ValidEmail(s)
  {
    var d := b + "." + c;
    assert s == a + "@" + d;
    AtAfterLocalPart(s, a, d);
    assert s[..|a|] == a && s[|a| + 1..] == d;
    assert d[|b|] == '.';
    assert NoSpaceOrAt(d);
  }

  /** In `a + "@" + d` with no `@` in `a`, the first `@` is the one after `a`. */
  lemma AtAfterLocalPart(s: string, a: string, d: string)
    requires NoSpaceOrAt(a) && s == a + "@" + d
    ensures IndexOf(s, "@") == |a|
  {
    assert OccursAt(s, "@", |a|) by {
      assert s[|a|..|a| + 1] == "@";
    }
    forall j | 0 <= j < |a|
      ensures !OccursAt(s, "@", j)
    {
      assert s[j..j + 1] == [a[j]];
    }
    var r := IndexOf(s, "@");
    assert r != -1;
  }

  /* ---------------------------------------------------------------------- */
  /* Sign-up                                                                 */
  /* ---------------------------------------------------------------------- */

  /**
   * `handleSubmit` of the sign-up form. The checks run in order: some field
   * empty, email not of the pattern's shape, password shorter than 6 UTF-16
   * code units, confirmation different from the password; the first failing
   * one alone decides the message, and the submission is accepted exactly
   * when none fails.
   */
  function SignUpSubmit(name: string, email: string, password: string, confirmPassword: string): (r: Submission)
    ensures name == "" || email == "" || password == "" || confirmPassword == "" ==> r == Rejected(AllFieldsRequired)
    ensures name != "" && email != "" && password != "" && confirmPassword != "" ==>
              && (!MatchesEmailPattern(email) ==> r == Rejected(InvalidEmail))
              && (MatchesEmailPattern(email) && Utf16Length(password) < 6 ==> r == Rejected(PasswordTooShort))
              && (MatchesEmailPattern(email) && Utf16Length(password) >= 6 && password != confirmPassword ==>
                    r == Rejected(PasswordsDiffer))
    ensures r == Accepted <==>
              && name != "" && email != "" && password != "" && confirmPassword != ""
              && MatchesEmailPattern(email) && Utf16Length(password) >= 6 && password == confirmPassword
  {
    EmailPattern(email);
    if name == "" || email == "" || password == "" || confirmPassword == "" then Rejected(AllFieldsRequired)
    else if !ValidEmail(email) then Rejected(InvalidEmail)
    else if Utf16Length(password) < 6 then Rejected(PasswordTooShort)
    else if password != confirmPassword then Rejected(PasswordsDiffer)
    else Accepted
  }

  /** `disabled` of the sign-up button. */
  predicate SubmitDisabled(name: string, email: string, password: string, confirmPassword: string)
  {
    name == "" || email == "" || password == "" || confirmPassword == ""
  }

  /**
   * The button is disabled exactly for the inputs the first check rejects:
   * a submission that gets through the button never reports missing fields.
   */
  lemma DisabledIffFieldsMissing(name: string, email: string, password: string, confirmPassword: string)
    ensures SubmitDisabled(name, email, password, confirmPassword) <==>
            SignUpSubmit(name, email, password, confirmPassword) == Rejected(AllFieldsRequired)
  {
  }

  /* ---------------------------------------------------------------------- */
  /* Sign-in                                                                 */
  /* ---------------------------------------------------------------------- */

  /**
   * `handleSubmit` of the sign-in form: the sign-up chain without the name
   * and the confirmation.
   */
  function SignInSubmit(email: string, password: string): (r: Submission)
    ensures email == "" || password == "" ==> r == Rejected(AllFieldsRequired)
    ensures email != "" && password != "" ==>
              && (!MatchesEmailPattern(email) ==> r == Rejected(InvalidEmail))
              && (MatchesEmailPattern(email) && Utf16Length(password) < 6 ==> r == Rejected(PasswordTooShort))
    ensures r == Accepted <==> email != "" && password != "" && MatchesEmailPattern(email) && Utf16Length(password) >= 6
  {
    EmailPattern(email);
    if email == "" || password == "" then Rejected(AllFieldsRequired)
    else if !ValidEmail(email) then Rejected(InvalidEmail)
    else if Utf16Length(password) < 6 then Rejected(PasswordTooShort)
    else Accepted
  }

  /**
   * Signing in with `email` and `password` gives the same outcome, message
   * included, as signing up under any non-empty name with the password
   * repeated as its confirmation.
   */
  lemma SignInIsSignUpWithConfirmation(name: string, email: string, password: string)
    requires name != ""
    ensures SignInSubmit(email, password) == SignUpSubmit(name, email, password, password)
  {
  }
}
