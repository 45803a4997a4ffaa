/** The two aggregators, loginUser and signUpUser. Each runs its validators in a
    fixed order, appends a fixed message for every failing one to a local error
    list, and returns the success text when the list stayed empty and the list
    otherwise. The methods build the list step by step as the source does; the
    functions beside them give the same result as "the failing entries of a
    fixed list of checks", and the lemmas state what callers rely on. */
module Forms {
  import opened Validators
  import opened ErrorList

  /** What an aggregator returns: its success text, or the non-empty list of
      error messages. */
  datatype Result = Success(msg: string) | Failure(errors: seq<string>) {
    /** The reported errors; none for a success. */
    function Errors(): seq<string> {
      if Failure? then errors else []
    }
  }

  const InvalidEmailFormat := "Invalid email format"
  const InvalidPassword := "Invalid password"
  const LoginSuccessful := "Login Successful"

  const InvalidUsername := "Username must be at least 3 characters and contain only letters"
  const PasswordCriteriaNotMet := "Password does not meet criteria"
  const SignUpSuccessful := "Sign-Up Successful"

  /** The result for a list of checks: the failing entries, or `success` when
      there are none. */
  function Outcome(checks: seq<Check>, success: string): (r: Result)
    ensures r.Success? <==> forall k :: 0 <= k < |checks| ==> checks[k].passed
    ensures r.Success? ==> r.msg == success
    ensures r.Failure? ==> 1 <= |r.errors| <= |checks|
  {
    var errors := FailingMessages(checks);
    if |errors| > 0 then Failure(errors) else Success(success)
  }

  // ---------------------------------------------------------------------------
  // loginUser
  // ---------------------------------------------------------------------------

  /** The checks of loginUser, in the order it runs them. */
  function LoginChecks(email: string, password: string): seq<Check> {
    [Check(ValidateEmail(email), InvalidEmailFormat), Check(ValidatePassword(password), InvalidPassword)]
  }

  /** What loginUser returns. */
  function LoginOutcome(email: string, password: string): Result {
    Outcome(LoginChecks(email, password), LoginSuccessful)
  }

  /** loginUser: check the email, then the password, appending a message for
      each failure. */
  method LoginUser(email: string, password: string) returns (r: Result)
    ensures r == LoginOutcome(email, password)
    ensures r.Success? <==> ValidateEmail(email) && ValidatePassword(password)
    ensures r.Success? ==> r.msg == LoginSuccessful
    ensures r.Failure? ==> 1 <= |r.errors| <= 2
  {
    ghost var checks := LoginChecks(email, password);
    var errors: seq<string> := [];
    FailingMessagesSnoc([], checks[0]);
    if !ValidateEmail(email) {
      errors := errors + [InvalidEmailFormat];
    }
    assert errors == FailingMessages(checks[..1]);
    FailingMessagesSnoc(checks[..1], checks[1]);
    assert checks[..1] + [checks[1]] == checks;
    if !ValidatePassword(password) {
      errors := errors + [InvalidPassword];
    }
    assert errors == FailingMessages(checks);
    r := if |errors| > 0 then Failure(errors) else Success(LoginSuccessful);
    LoginSucceedsIff(email, password);
  }

  /** loginUser succeeds, with "Login Successful", exactly when both fields are valid;
      otherwise it reports one or two errors. */
  lemma LoginSucceedsIff(email: string, password: string)
    ensures LoginOutcome(email, password).Success?
        <==> ValidateEmail(email) && ValidatePassword(password)
    ensures LoginOutcome(email, password).Success?
        ==> LoginOutcome(email, password) == Success(LoginSuccessful)
    ensures LoginOutcome(email, password).Failure?
        ==> 1 <= |LoginOutcome(email, password).errors| <= 2
  {
    var checks := LoginChecks(email, password);
    assert checks[0].passed == ValidateEmail(email);
    assert checks[1].passed == ValidatePassword(password);
  }

  /** Each loginUser message is reported exactly when its own check fails. */
  lemma LoginMessageIff(email: string, password: string)
    ensures InvalidEmailFormat in LoginOutcome(email, password).Errors() <==> !ValidateEmail(email)
    ensures InvalidPassword in LoginOutcome(email, password).Errors() <==> !ValidatePassword(password)
  {
    LoginErrorsByField(email, password);
  }

  /** The loginUser error list is the email part followed by the password part,
      each holding its message exactly when its check fails. */
  lemma LoginErrorsByField(email: string, password: string)
    ensures LoginOutcome(email, password).Errors()
         == (if ValidateEmail(email) then [] else [InvalidEmailFormat])
          + (if ValidatePassword(password) then [] else [InvalidPassword])
  {
    var checks := LoginChecks(email, password);
    FailingMessagesSnoc([], checks[0]);
    FailingMessagesSnoc(checks[..1], checks[1]);
    assert [] + [checks[0]] == checks[..1];
    assert checks[..1] + [checks[1]] == checks;
  }

  /** The loginUser errors are the failing entries of
      ["Invalid email format", "Invalid password"], in that order. */
  lemma LoginErrorsInOrder(email: string, password: string)
    ensures IsSubsequence(LoginOutcome(email, password).Errors(), [InvalidEmailFormat, InvalidPassword])
  {
    var checks := LoginChecks(email, password);
    FailingMessagesInOrder(checks);
    assert Messages(checks) == [InvalidEmailFormat, InvalidPassword];
  }

  /** The email message of loginUser does not depend on the password, and the
      password message does not depend on the email. */
  lemma LoginFieldsIndependent(e1: string, e2: string, p1: string, p2: string)
    ensures (InvalidEmailFormat in LoginOutcome(e1, p1).Errors())
        == (InvalidEmailFormat in LoginOutcome(e1, p2).Errors())
    ensures (InvalidPassword in LoginOutcome(e1, p1).Errors())
        == (InvalidPassword in LoginOutcome(e2, p1).Errors())
  {
    LoginMessageIff(e1, p1);
    LoginMessageIff(e1, p2);
    LoginMessageIff(e2, p1);
  }

  /** The loginUser result in terms of its two checks. */
  lemma LoginOutcomeByField(email: string, password: string)
    ensures var errors := (if ValidateEmail(email) then [] else [InvalidEmailFormat])
                        + (if ValidatePassword(password) then [] else [InvalidPassword]);
            LoginOutcome(email, password)
            == if errors == [] then Success(LoginSuccessful) else Failure(errors)
  {
    LoginErrorsByField(email, password);
    LoginSucceedsIff(email, password);
  }

  /** loginUser succeeds on the valid inputs of the test suite. */
  lemma LoginAcceptedExample()
    ensures LoginOutcome("test@example.com", "Password1") == Success("Login Successful")
  {
    EmailAcceptedExamples();
    PasswordAcceptedExamples();
    LoginOutcomeByField("test@example.com", "Password1");
  }

  /** loginUser reports only the email error for an invalid email. */
  lemma LoginBadEmailExample()
    ensures LoginOutcome("invalid-email", "Password1") == Failure(["Invalid email format"])
  {
    EmailWithoutAtRejected("invalid-email");
    PasswordAcceptedExamples();
    LoginOutcomeByField("invalid-email", "Password1");
  }

  /** loginUser reports only the password error for an invalid password. */
  lemma LoginBadPasswordExample()
    ensures LoginOutcome("test@example.com", "pass") == Failure(["Invalid password"])
  {
    EmailAcceptedExamples();
    PasswordRejectedExamples();
    LoginOutcomeByField("test@example.com", "pass");
  }

  /** loginUser reports both errors, the email error first. */
  lemma LoginAllBadExample()
    ensures LoginOutcome("invalid-email", "pass") == Failure(["Invalid email format", "Invalid password"])
  {

  }

  // ---------------------------------------------------------------------------
  // signUpUser
  // ---------------------------------------------------------------------------

  /** The checks of signUpUser, in the order it runs them. */
  function SignUpChecks(email: string, password: string, username: string): seq<Check> {
    [ Check(ValidateEmail(email), InvalidEmailFormat),
      Check(ValidateUsername(username), InvalidUsername),
      Check(ValidatePassword(password), PasswordCriteriaNotMet) ]
  }

  /** What signUpUser returns. */
  function SignUpOutcome(email: string, password: string, username: string): Result {
    Outcome(SignUpChecks(email, password, username), SignUpSuccessful)
  }

  /** signUpUser: check the email, then the username, then the password,
      appending a message for each failure. */
  method SignUpUser(email: string, password: string, username: string) returns (r: Result)
    ensures r == SignUpOutcome(email, password, username)
    ensures r.Success? <==> ValidateEmail(email) && ValidateUsername(username) && ValidatePassword(password)
    ensures r.Success? ==> r.msg == SignUpSuccessful
    ensures r.Failure? ==> 1 <= |r.errors| <= 3
  {
    ghost var checks := SignUpChecks(email, password, username);
    var errors: seq<string> := [];
    FailingMessagesSnoc([], checks[0]);
    if !ValidateEmail(email) {
      errors := errors + [InvalidEmailFormat];
    }
    assert errors == FailingMessages(checks[..1]);
    FailingMessagesSnoc(checks[..1], checks[1]);
    assert checks[..1] + [checks[1]] == checks[..2];
    if !ValidateUsername(username) {
      errors := errors + [InvalidUsername];
    }
    assert errors == FailingMessages(checks[..2]);
    FailingMessagesSnoc(checks[..2], checks[2]);
    assert checks[..2] + [checks[2]] == checks;
    if !ValidatePassword(password) {
      errors := errors + [PasswordCriteriaNotMet];
    }
    assert errors == FailingMessages(checks);
    r := if |errors| > 0 then Failure(errors) else Success(SignUpSuccessful);
    SignUpSucceedsIff(email, password, username);
  }

  /** signUpUser succeeds, with "Sign-Up Successful", exactly when all three fields
      are valid; otherwise it reports one to three errors. */
  lemma SignUpSucceedsIff(email: string, password: string, username: string)
    ensures SignUpOutcome(email, password, username).Success?
        <==> ValidateEmail(email) && ValidateUsername(username) && ValidatePassword(password)
    ensures SignUpOutcome(email, password, username).Success?
        ==> SignUpOutcome(email, password, username) == Success(SignUpSuccessful)
    ensures SignUpOutcome(email, password, username).Failure?
        ==> 1 <= |SignUpOutcome(email, password, username).errors| <= 3
  {
    var checks := SignUpChecks(email, password, username);
    assert checks[0].passed == ValidateEmail(email);
    assert checks[1].passed == ValidateUsername(username);
    assert checks[2].passed == ValidatePassword(password);
  }

  /** Each signUpUser message is reported exactly when its own check fails. */
  lemma SignUpMessageIff(email: string, password: string, username: string)
    ensures InvalidEmailFormat in SignUpOutcome(email, password, username).Errors()
        <==> !ValidateEmail(email)
    ensures InvalidUsername in SignUpOutcome(email, password, username).Errors()
        <==> !ValidateUsername(username)
    ensures PasswordCriteriaNotMet in SignUpOutcome(email, password, username).Errors()
        <==> !ValidatePassword(password)
  {
    SignUpErrorsByField(email, password, username);
  }

  /** The signUpUser errors are the failing entries of the email, username and
      password messages, in that order. */
  lemma SignUpErrorsInOrder(email: string, password: string, username: string)
    ensures IsSubsequence(SignUpOutcome(email, password, username).Errors(),
                          [InvalidEmailFormat, InvalidUsername, PasswordCriteriaNotMet])
  {
    var checks := SignUpChecks(email, password, username);
    FailingMessagesInOrder(checks);
    assert Messages(checks) == [InvalidEmailFormat, InvalidUsername, PasswordCriteriaNotMet];
  }

  /** Changing the username leaves the email and password entries of the
      signUpUser errors, and their order, unchanged. */
  lemma SignUpUsernameIndependent(email: string, password: string, u1: string, u2: string)
    ensures Without(SignUpOutcome(email, password, u1).Errors(), InvalidUsername)
         == Without(SignUpOutcome(email, password, u2).Errors(), InvalidUsername)
  {
    FailingMessagesWithout(SignUpChecks(email, password, u1), SignUpChecks(email, password, u2), InvalidUsername);
  }

  /** Changing the email leaves the username and password entries unchanged. */
  lemma SignUpEmailIndependent(e1: string, e2: string, password: string, username: string)
    ensures Without(SignUpOutcome(e1, password, username).Errors(), InvalidEmailFormat)
         == Without(SignUpOutcome(e2, password, username).Errors(), InvalidEmailFormat)
  {
    FailingMessagesWithout(SignUpChecks(e1, password, username), SignUpChecks(e2, password, username), InvalidEmailFormat);
  }

  /** Changing the password leaves the email and username entries unchanged. */
  lemma SignUpPasswordIndependent(email: string, p1: string, p2: string, username: string)
    ensures Without(SignUpOutcome(email, p1, username).Errors(), PasswordCriteriaNotMet)
         == Without(SignUpOutcome(email, p2, username).Errors(), PasswordCriteriaNotMet)
  {
    FailingMessagesWithout(SignUpChecks(email, p1, username), SignUpChecks(email, p2, username), PasswordCriteriaNotMet);
  }

  /** The signUpUser error list is the email part, then the username part, then the
      password part, each part holding its message exactly when its check fails. */
  lemma SignUpErrorsByField(email: string, password: string, username: string)
    ensures SignUpOutcome(email, password, username).Errors()
         == (if ValidateEmail(email) then [] else [InvalidEmailFormat])
          + (if ValidateUsername(username) then [] else [InvalidUsername])
          + (if ValidatePassword(password) then [] else [PasswordCriteriaNotMet])
  {
    var checks := SignUpChecks(email, password, username);
    FailingMessagesSnoc([], checks[0]);
    FailingMessagesSnoc(checks[..1], checks[1]);
    FailingMessagesSnoc(checks[..2], checks[2]);
    assert [] + [checks[0]] == checks[..1];
    assert checks[..1] + [checks[1]] == checks[..2];
    assert checks[..2] + [checks[2]] == checks;
  }

  /** The signUpUser result in terms of its three checks. */
  lemma SignUpOutcomeByField(email: string, password: string, username: string)
    ensures var errors := (if ValidateEmail(email) then [] else [InvalidEmailFormat])
                        + (if ValidateUsername(username) then [] else [InvalidUsername])
                        + (if ValidatePassword(password) then [] else [PasswordCriteriaNotMet]);
            SignUpOutcome(email, password, username)
            == if errors == [] then Success(SignUpSuccessful) else Failure(errors)
  {
    SignUpErrorsByField(email, password, username);
    SignUpSucceedsIff(email, password, username);
  }

  /** signUpUser succeeds on the valid inputs of the test suite. */
  lemma SignUpAcceptedExample()
    ensures SignUpOutcome("test@example.com", "Password1", "user") == Success("Sign-Up Successful")
  {
    EmailAcceptedExamples();
    PasswordAcceptedExamples();
    UsernameExamples();
    SignUpOutcomeByField("test@example.com", "Password1", "user");
  }

  /** signUpUser reports only the email error for an invalid email. */
  lemma SignUpBadEmailExample()
    ensures SignUpOutcome("invalid-email", "Password1", "user") == Failure(["Invalid email format"])
  {
    EmailWithoutAtRejected("invalid-email");
    PasswordAcceptedExamples();
    UsernameExamples();
    SignUpOutcomeByField("invalid-email", "Password1", "user");
  }

  /** signUpUser reports only the password error for an invalid password. */
  lemma SignUpBadPasswordExample()
    ensures SignUpOutcome("test@example.com", "pass", "user") == Failure(["Password does not meet criteria"])
  {
    EmailAcceptedExamples();
    PasswordRejectedExamples();
    UsernameExamples();
    SignUpOutcomeByField("test@example.com", "pass", "user");
  }

  /** signUpUser reports only the username error for a short username or one with digits. */
  lemma SignUpBadUsernameExamples()
    ensures SignUpOutcome("test@example.com", "Password1", "us")
         == Failure(["Username must be at least 3 characters and contain only letters"])
    ensures SignUpOutcome("test@example.com", "Password1", "user123")
         == Failure(["Username must be at least 3 characters and contain only letters"])
  {
    EmailAcceptedExamples();
    PasswordAcceptedExamples();
    UsernameExamples();
    SignUpOutcomeByField("test@example.com", "Password1", "us");
    SignUpOutcomeByField("test@example.com", "Password1", "user123");
  }

  /** signUpUser reports all three errors, email first and password last. */
  lemma SignUpAllBadExample()
    ensures SignUpOutcome("invalid-email", "pass", "us")
         == Failure(["Invalid email format",
                     "Username must be at least 3 characters and contain only letters",
                     "Password does not meet criteria"])
  {

  }
}
