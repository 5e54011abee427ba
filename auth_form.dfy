/**
 * The sign-in / sign-up form: the sign-up password rule, and the form's state
 * as the submit handler, the mode toggle and the "Back to Login" button change it.
 */
module AuthForm {
  import opened Options
  import opened JsText

  /** The symbols the password rule accepts: ! @ # $ % ^ & * ( ) _ + - = [ ] { } ; ' : " \ | , . < > / ? */
  const Symbols: set<char> := {
    '!', '@', '#', '$', '%', '^', '&', '*', '(', ')', '_', '+', '-', '=', '[', ']', '{', '}',
    ';', '\'', ':', '"', '\\', '|', ',', '.', '<', '>', '/', '?'}

  predicate IsUpper(c: char) { 'A' <= c <= 'Z' }

  predicate IsDigit(c: char) { '0' <= c <= '9' }

  predicate IsSymbol(c: char) { c in Symbols }

  /** The message shown when a sign-up password fails the rule. */
  const RequirementMessage: string :=
    "Password must be at least 8 characters, include a capital letter, a number, and a symbol."

  // ---------------------------------------------------------------------------
  // The rule as a regular expression:
  //   ^(?=.*[A-Z])(?=.*\d)(?=.*[symbols]).{8,}$
  // ---------------------------------------------------------------------------

  /** Whether `.*[cls]` matches at the start of `s` (`.` refuses line terminators). */
  predicate DotStarThen(s: string, cls: char -> bool) {
    s != [] && (cls(s[0]) || (!IsLineTerminator(s[0]) && DotStarThen(s[1..], cls)))
  }

  /** Whether `.{n,}$` matches `s` from its start. */
  predicate DotsToEnd(s: string, n: nat) {
    if s == [] then n == 0
    else !IsLineTerminator(s[0]) && DotsToEnd(s[1..], if n > 0 then n - 1 else 0)
  }

  /** `passwordRequirements.test(p)`: three lookaheads at position 0, then eight or more characters to the end. */
  predicate PasswordRequirementsTest(p: string) {
    DotStarThen(p, IsUpper) && DotStarThen(p, IsDigit) && DotStarThen(p, IsSymbol) && DotsToEnd(p, 8)
  }

  /** The rule in words. */
  predicate PasswordRule(p: string) {
    && |p| >= 8
    && (forall i :: 0 <= i < |p| ==> !IsLineTerminator(p[i]))
    && (exists i :: 0 <= i < |p| && IsUpper(p[i]))
    && (exists i :: 0 <= i < |p| && IsDigit(p[i]))
    && (exists i :: 0 <= i < |p| && IsSymbol(p[i]))
  }

  lemma {:induction false} DotsToEndIff(s: string, n: nat)
    ensures DotsToEnd(s, n) <==> |s| >= n && forall i :: 0 <= i < |s| ==> !IsLineTerminator(s[i])
  {
    if s != [] {
      DotsToEndIff(s[1..], if n > 0 then n - 1 else 0);
      assert forall i :: 1 <= i < |s| ==> s[i] == s[1..][i - 1];
    }
  }

  /** On a string without line terminators, `.*[cls]` matches exactly when some character is in `cls`. */
  lemma {:induction false} DotStarThenIff(s: string, cls: char -> bool)
    requires forall i :: 0 <= i < |s| ==> !IsLineTerminator(s[i])
    ensures DotStarThen(s, cls) <==> exists i :: 0 <= i < |s| && cls(s[i])
  {
    if s != [] {
      assert forall i :: 1 <= i < |s| ==> s[i] == s[1..][i - 1];
      DotStarThenIff(s[1..], cls);
      if !cls(s[0]) && (exists i :: 0 <= i < |s| && cls(s[i])) {
        var i :| 0 <= i < |s| && cls(s[i]);
        assert 0 <= i - 1 < |s[1..]| && cls(s[1..][i - 1]);
      }
    }
  }

  /**
   * The regular expression accepts a password exactly when it has at least 8
   * characters, no line terminator, an upper-case letter A-Z, a digit and one
   * of the listed symbols.
   */
  lemma PasswordRequirementsIff(p: string)
    ensures PasswordRequirementsTest(p) <==> PasswordRule(p)
  {
    DotsToEndIff(p, 8);
    if forall i :: 0 <= i < |p| ==> !IsLineTerminator(p[i]) {
      DotStarThenIff(p, IsUpper);
      DotStarThenIff(p, IsDigit);
      DotStarThenIff(p, IsSymbol);
    }
  }

  /**
   * Symbols outside the list, such as '~' and '`', do not count: a password
   * made only of letters, digits, '~' and '`' is refused.
   */
  lemma OtherSymbolsDoNotCount(p: string)
    requires forall i :: 0 <= i < |p| ==>
      'a' <= p[i] <= 'z' || IsUpper(p[i]) || IsDigit(p[i]) || p[i] == '~' || p[i] == '`'
    ensures !PasswordRequirementsTest(p)
  {
    PasswordRequirementsIff(p);
    assert !IsSymbol('~') && !IsSymbol('`');
  }

  /** "Password1!" passes the rule. */
  lemma AcceptedExample()
    ensures PasswordRule("Password1!")
  {
    var good := "Password1!";
    assert IsUpper(good[0]) && IsDigit(good[8]) && IsSymbol(good[9]);
  }

  /** "password1!" has no capital letter and is refused. */
  lemma RefusedWithoutCapital()
    ensures !PasswordRule("password1!")
  {
    var lower := "password1!";
    forall i | 0 <= i < |lower| ensures !IsUpper(lower[i]) {
      assert lower[i] in "password1!";
    }
  }

  /** What the submit handler asked the identity provider to do. */
  datatype AuthCall = NoCall | SignUp(email: string, password: string, username: string) | SignIn(email: string, password: string)

  /** The state of the form. */
  class AuthPage {
    var email: string
    var username: string
    var password: string
    var isSignUp: bool
    var loading: bool
    var message: string
    var accountCreated: bool

    constructor ()
      ensures email == "" && username == "" && password == ""
      ensures !isSignUp && !loading && message == "" && !accountCreated
    {
      email, username, password := "", "", "";
      isSignUp, loading, message, accountCreated := false, false, "", false;
    }

    /**
     * handleAuth. In sign-up mode a password failing the rule sets the
     * requirement message and makes no call; otherwise the provider is called
     * (sign-up with email, password and username, or sign-in with email and
     * password) and `providerError` is its answer. A successful sign-up sets
     * `accountCreated`; an error shows its text. Loading always ends.
     */
    method HandleAuth(providerError: Option<string>) returns (call: AuthCall)
      modifies this`loading, this`message, this`accountCreated
      ensures !loading
      ensures isSignUp && !PasswordRequirementsTest(password) ==>
        call == NoCall && message == RequirementMessage && accountCreated == old(accountCreated)
      ensures isSignUp && PasswordRequirementsTest(password) ==>
        && call == SignUp(email, password, username)
        && accountCreated == (old(accountCreated) || providerError.None?)
        && message == providerError.GetOr("")
      ensures !isSignUp ==>
        && call == SignIn(email, password)
        && accountCreated == old(accountCreated)
        && message == providerError.GetOr("")
    {
      loading := true;
      message := "";
      call := NoCall;
      if isSignUp {
        if !PasswordRequirementsTest(password) {
          message := RequirementMessage;
          loading := false;
          return;
        }
        call := SignUp(email, password, username);
        if providerError.Some? {
          message := providerError.value;
        } else {
          accountCreated := true;
        }
      } else {
        call := SignIn(email, password);
        if providerError.Some? {
          message := providerError.value;
        }
      }
      loading := false;
    }

    /** The sign-up / sign-in link: flips the mode and clears the message. */
    method ToggleMode()
      modifies this`isSignUp, this`message
      ensures isSignUp == !old(isSignUp) && message == ""
    {
      isSignUp := !isSignUp;
      message := "";
    }

    /** "Back to Login" on the account-created screen: back to an empty sign-in form. */
    method BackToLogin()
      modifies this`isSignUp, this`accountCreated, this`email, this`password, this`username, this`message
      ensures !isSignUp && !accountCreated
      ensures email == "" && password == "" && username == "" && message == ""
    {
      isSignUp := false;
      accountCreated := false;
      email := "";
      password := "";
      username := "";
      message := "";
    }
  }
}
