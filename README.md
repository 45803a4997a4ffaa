# Login and sign-up form validation, modelled in Dafny

The system checks the fields of a login form (email, password) and of a sign-up
form (email, password, username) against fixed syntactic rules. Three
validators each test one field against an anchored regular expression:

- `validateEmail`: `^[^\s@]+@[^\s@]+\.[^\s@]+$`
- `validateUsername`: `^[A-Za-z]{3,}$`
- `validatePassword`: `^(?=.*[A-Z])(?=.*\d)[A-Za-z\d]{8,}$`

Two aggregators, `loginUser` and `signUpUser`, run their validators in a fixed
order. Each starts from an empty error list and appends a fixed message for
every check that fails. It returns its success text when the list is still
empty, and the list otherwise.

The project has three modules:

- `Validators` (`validators.dfy`). Each regular expression is written by hand as
  a predicate in the expression's own shape. The email predicate says that split
  points exist for the `@` and the `.`. The password lookaheads `(?=.*X)` say
  that `.*` can reach a character of class X, where `.` matches any character
  but a line terminator. Lemmas give the closed form of the email and password
  rules; the username rule `[A-Za-z]{3,}` is already stated in closed form, so it
  needs none. Further lemmas check the accepted and rejected strings that the
  test suite names. `\s` is the ECMA-262 set of white space (section 12.2) and
  line terminators (section 12.3), listed one by one.
- `ErrorList` (`error_list.dfy`). The accumulation both aggregators share: a
  list of checks, each a pass/fail flag with a message, and `FailingMessages`,
  the messages of the failing checks in check order. Its lemmas cover what one
  more check adds, when a message is present, that order is kept, and that
  changing one check leaves the other messages alone.
- `Forms` (`forms.dfy`). The `Result` datatype (`Success(msg)` or
  `Failure(errors)`). `LoginUser` and `SignUpUser` are methods that build the
  error list with successive `if`s, as the source does. Each is proved equal to
  a specification function (`LoginOutcome`, `SignUpOutcome`) that takes the
  failing entries of the fixed list of checks. Lemmas about those functions give
  the success-iff, the bounds on the list, membership, order, independence of
  one field from another, and the test-suite calls.

Password rule: the code's expression has no lower-case lookahead, so the model
has no lower-case requirement and accepts `"PASSWORD1"`. The test suite's matcher
(spec/functions.spec.js:38) asks for a lower-case letter, and so does the test
name at spec/functions.spec.js:107. Where they disagree with the code, the model
follows the code, whose comment at src/functions.js:10 agrees with it. The
matcher's stricter rule is `ValidatePasswordStrict`. It is proved to imply the
code's rule, and `"PASSWORD1"` is proved to separate the two.

Several tests in spec/functions.spec.js pass a boolean into a string matcher, or
test a raw string in place of a validator call. They are not evidence of
validator behaviour. The examples here come from the regular expressions; the
tests only supply the input strings.

## Model

| member | source | states |
|---|---|---|
| Validators.ValidateEmail | src/functions.js:6-8 | validateEmail, `^[^\s@]+@[^\s@]+\.[^\s@]+$` (line 1): some `@` at index i and `.` at index j > i split the string into three non-empty segments, none holding a `\s` character or `@` |
| Validators.ValidateUsername | src/functions.js:16-18 | validateUsername, `^[A-Za-z]{3,}$` (line 3): at least 3 characters, every one in `A-Z` or `a-z` |
| Validators.ValidatePassword | src/functions.js:11-13 | validatePassword, `^(?=.*[A-Z])(?=.*\d)[A-Za-z\d]{8,}$` (line 5): each lookahead's `.*` (no line terminator) reaches an upper-case letter and a digit, and the body is 8 or more ASCII letters or digits; no lower-case lookahead |
| Validators.ValidatePasswordStrict | spec/functions.spec.js:37-38 | the test matcher's expression: the same as validatePassword plus a lookahead for `a-z` |
| Forms.LoginChecks | src/functions.js:24-26 | the checks loginUser runs, in order: email with "Invalid email format", then password with "Invalid password" |
| Forms.LoginOutcome | src/functions.js:21-30 | the reference result of loginUser: the failing entries of LoginChecks, or Success("Login Successful") when there are none |
| Forms.SignUpChecks | src/functions.js:36-42 | the checks signUpUser runs, in order: email, username, password, each with its source message |
| Forms.SignUpOutcome | src/functions.js:33-45 | the reference result of signUpUser: the failing entries of SignUpChecks, or Success("Sign-Up Successful") when there are none |
| Validators.EmailCharacterisation | src/functions.js:1-8 | validateEmail holds iff there is no white space, exactly one `@`, a non-empty part before it, and a `.` in the part after it that is neither that part's first nor its last character (both directions) |
| Validators.EmailMatchIsWellFormed | src/functions.js:1 | any split of the string that matches the expression (`@` at i, `.` at j, three non-empty segments free of `\s` and `@`) gives the closed form |
| Validators.WellFormedEmailMatches | src/functions.js:1 | a string in the closed form has a split that matches the expression |
| Validators.EmailHasOneAt | src/functions.js:1 | an accepted address has no second `@` |
| Validators.EmailWithoutAtRejected | src/functions.js:1 | a string without `@` is rejected |
| Validators.EmailWithSpaceRejected | src/functions.js:1 | a string with a `\s` character at any position is rejected |
| Validators.EmailWithTwoAtsRejected | src/functions.js:1 | a string with two `@` characters is rejected |
| Validators.EmailWithoutInnerDotRejected | src/functions.js:1 | a string whose part after its `@` has no inner `.` is rejected |
| Validators.EmailAcceptedExamples | spec/functions.spec.js:70-73 | `"test@example.com"` and `"user.name+tag@domain.co.uk"` are accepted |
| Validators.EmailRejectedExamples | spec/functions.spec.js:75-93 | `"test@"`, `"testexample.com"`, `"test@example"`, `"test@ example.com"` and `"test@@example.com"` are rejected |
| Validators.UsernameWithNonLetterRejected | src/functions.js:3 | a username with any character outside `A-Z`/`a-z` is rejected, whatever its length |
| Validators.UsernameExamples | spec/functions.spec.js:126-146 | `"useruser"`, `"USERNAME"` and `"user"` are accepted; `"uz"`, `"us"`, `"user123"`, `"user_123"`, `"user@name"` and `"user name"` are rejected |
| Validators.AlnumDotStar | src/functions.js:5 | in a string of ASCII letters and digits, the lookahead's `.*` reaches every index |
| Validators.PasswordAccepted | src/functions.js:5 | eight or more letters and digits with an upper-case letter and a digit anywhere are accepted |
| Validators.PasswordCharacterisation | src/functions.js:5-13 | validatePassword holds iff length is at least 8, every character is an ASCII letter or digit, and there is at least one `A-Z` and at least one `0-9` (both directions) |
| Validators.PasswordWithoutUpperRejected | src/functions.js:5 | a password with no upper-case letter is rejected |
| Validators.PasswordWithoutDigitRejected | src/functions.js:5 | a password with no digit is rejected |
| Validators.PasswordWithOtherCharRejected | src/functions.js:5 | a password with any character other than an ASCII letter or digit (a space, say) is rejected |
| Validators.PasswordAcceptedExamples | spec/functions.spec.js:98-101 | `"Password1"` and `"MyPass123"` are accepted |
| Validators.PasswordAllUpperAccepted | src/functions.js:5 | `"PASSWORD1"` is accepted: the expression has no lower-case lookahead |
| Validators.PasswordRejectedExamples | spec/functions.spec.js:103-121 | `"password1"`, `"Password"`, `"Pass1"`, `"pass"` and `"Pass word1"` are rejected |
| Validators.StrictPasswordImpliesPassword | spec/functions.spec.js:37-38 | every password the matcher's stricter rule accepts, validatePassword accepts |
| Validators.StrictPasswordNotConverse | spec/functions.spec.js:107-109 | `"PASSWORD1"` passes validatePassword but fails the stricter rule, so the converse does not hold |
| ErrorList.FailingMessages | src/functions.js:22-28 | the error list is no longer than the list of checks, and is empty iff every check passed |
| ErrorList.FailingMessagesSnoc | src/functions.js:24-26 | running one more check appends its message iff it fails, and otherwise leaves the list as it was |
| ErrorList.FailingMessagesMembership | src/functions.js:24-26 | a message is in the error list iff some check carrying it failed |
| ErrorList.FailingMessagesInOrder | src/functions.js:22-26 | the error list is a subsequence of all the messages in check order |
| ErrorList.FailingMessagesWithout | src/functions.js:36-42 | changing only the outcome of the checks with message m leaves the rest of the error list, in order, as it was |
| ErrorList.Without | src/functions.js:36-42 | the result keeps exactly the elements other than m |
| ErrorList.WithoutAppend | src/functions.js:36-42 | leaving out m distributes over concatenation |
| Forms.Outcome | src/functions.js:28 | success iff every check passed, and then with the given text; otherwise a Failure with between 1 and as many errors as there are checks |
| Forms.LoginUser | src/functions.js:21-30 | the step-by-step error list equals LoginOutcome; Success iff the email and the password are both valid, then with "Login Successful"; otherwise 1 or 2 errors |
| Forms.LoginSucceedsIff | src/functions.js:21-30 | loginUser returns Success("Login Successful") iff both validators accept; otherwise the list holds 1 or 2 errors |
| Forms.LoginMessageIff | src/functions.js:24-26 | "Invalid email format" is reported iff the email is invalid; "Invalid password" iff the password is invalid |
| Forms.LoginErrorsInOrder | src/functions.js:22-28 | the loginUser errors are a subsequence of ["Invalid email format", "Invalid password"] |
| Forms.LoginFieldsIndependent | src/functions.js:24-26 | whether the email message appears does not depend on the password, and the reverse |
| Forms.LoginErrorsByField | src/functions.js:22-26 | the loginUser error list is the email part then the password part, each holding its message iff its check fails |
| Forms.LoginOutcomeByField | src/functions.js:21-30 | the whole loginUser result in terms of the two checks |
| Forms.LoginAcceptedExample | spec/functions.spec.js:151-155 | a valid email and password give Success("Login Successful") |
| Forms.LoginBadEmailExample | spec/functions.spec.js:157-161 | an invalid email alone gives ["Invalid email format"] |
| Forms.LoginBadPasswordExample | spec/functions.spec.js:163-167 | an invalid password alone gives ["Invalid password"] |
| Forms.LoginAllBadExample | spec/functions.spec.js:169-174 | both invalid give ["Invalid email format", "Invalid password"], in that order |
| Forms.SignUpUser | src/functions.js:33-45 | the step-by-step error list equals SignUpOutcome; Success iff all three validators accept, then with "Sign-Up Successful"; otherwise 1 to 3 errors |
| Forms.SignUpSucceedsIff | src/functions.js:33-45 | signUpUser returns Success("Sign-Up Successful") iff all three validators accept; otherwise the list holds 1 to 3 errors |
| Forms.SignUpMessageIff | src/functions.js:36-42 | each of the three messages is reported iff its own check fails |
| Forms.SignUpErrorsInOrder | src/functions.js:34-44 | the signUpUser errors are a subsequence of the email, username, password messages in that order |
| Forms.SignUpUsernameIndependent | src/functions.js:37-40 | changing the username leaves the email and password entries, and their order, unchanged |
| Forms.SignUpEmailIndependent | src/functions.js:36 | changing the email leaves the username and password entries unchanged |
| Forms.SignUpPasswordIndependent | src/functions.js:41-42 | changing the password leaves the email and username entries unchanged |
| Forms.SignUpErrorsByField | src/functions.js:36-42 | the error list is the email part, then the username part, then the password part, each holding its message iff its check fails |
| Forms.SignUpOutcomeByField | src/functions.js:33-45 | the whole signUpUser result in terms of the three checks |
| Forms.SignUpAcceptedExample | spec/functions.spec.js:179-183 | valid inputs give Success("Sign-Up Successful") |
| Forms.SignUpBadEmailExample | spec/functions.spec.js:185-189 | an invalid email alone gives ["Invalid email format"] |
| Forms.SignUpBadPasswordExample | spec/functions.spec.js:191-195 | an invalid password alone gives ["Password does not meet criteria"] |
| Forms.SignUpBadUsernameExamples | spec/functions.spec.js:197-204 | `"us"` and `"user123"` as usernames give only the username message |
| Forms.SignUpAllBadExample | spec/functions.spec.js:206-212 | three invalid fields give all three messages: email, then username, then password |

## Left out

- The `DOMContentLoaded` handler and the two submit listeners (src/functions.js:47-103) are left out. They read DOM fields, clear and fill the result element, and set its CSS classes: UI I/O. Their `.includes(...)` success test relies on the return value being either a string or an array, which the `Result` datatype replaces.
- There is no general regular-expression engine. Each of the three expressions is a hand-written predicate.
- The space separators (general category Zs) are listed as they stand in current Unicode. A JavaScript engine built on another Unicode version may differ at the edges.
- JavaScript strings are UTF-16 code units, while a Dafny `char` is a Unicode scalar value, so lone surrogates cannot be written as input. This does not change any of the three rules: the counted classes (`{3,}`, `{8,}`) are ASCII only, and `[^\s@]+` needs only one or more characters either way.
- JavaScript's `test` turns a non-string argument into a string first. The model takes strings only.
- Repeating a call gives the same result. This holds by construction, since every member is a function of its inputs, so no lemma states it.
