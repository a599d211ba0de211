/** The zod schemas of the sign-up and login forms: trimming, the five
    password-strength requirements, the username rule, the display-name rule
    and the confirm-password refinement. Regular-expression tests are run by a
    small scanner (`Test`) whose contract states what each pattern means. */
module Schemas {

  /** The characters `String.prototype.trim` removes: ECMAScript WhiteSpace
      and LineTerminator. */
  predicate IsTrimmable(c: char)
  {
    || c == '\t' || c == '\U{000B}' || c == '\U{000C}' || c == ' '
    || c == '\U{00A0}' || c == '\U{FEFF}' || c == '\U{1680}'
    || ('\U{2000}' <= c <= '\U{200A}')
    || c == '\U{202F}' || c == '\U{205F}' || c == '\U{3000}'
    || IsLineTerminator(c)
  }

  /** The characters a regular-expression `.` does not match without the `s` flag. */
  predicate IsLineTerminator(c: char)
  {
    c == '\n' || c == '\r' || c == '\U{2028}' || c == '\U{2029}'
  }

  /** Drops leading trimmable characters. */
  function TrimStart(s: string): (r: string)
    ensures |r| <= |s|
    ensures forall i :: 0 <= i < |s| - |r| ==> IsTrimmable(s[i])
    ensures r != [] ==> !IsTrimmable(r[0]) && r[|r| - 1] == s[|s| - 1]
    ensures s != [] && !IsTrimmable(s[0]) ==> r == s
  {
    if s != [] && IsTrimmable(s[0]) then TrimStart(s[1..]) else s
  }

  /** Drops trailing trimmable characters. */
  function TrimEnd(s: string): (r: string)
    ensures |r| <= |s|
    ensures forall i :: |r| <= i < |s| ==> IsTrimmable(s[i])
    ensures r != [] ==> !IsTrimmable(r[|r| - 1]) && r[0] == s[0]
    ensures s != [] && !IsTrimmable(s[|s| - 1]) ==> r == s
  {
    if s != [] && IsTrimmable(s[|s| - 1]) then TrimEnd(s[..|s| - 1]) else s
  }

  /** `String.prototype.trim`, as zod's `.trim()` applies it before every check. */
  function Trim(s: string): (r: string)
    ensures |r| <= |s|
    ensures r != [] ==> !IsTrimmable(r[0]) && !IsTrimmable(r[|r| - 1])
    ensures (forall i :: 0 <= i < |s| ==> !IsTrimmable(s[i])) ==> r == s
  {
    TrimEnd(TrimStart(s))
  }

  /** Trimming removes a run of trimmable characters at each end and keeps
      the rest in place. */
  lemma {:induction false} TrimStartIsSuffix(s: string)
    ensures TrimStart(s) == s[|s| - |TrimStart(s)|..]
  {
    if s != [] && IsTrimmable(s[0]) {
      TrimStartIsSuffix(s[1..]);
    }
  }

  lemma {:induction false} TrimEndIsPrefix(s: string)
    ensures TrimEnd(s) == s[..|TrimEnd(s)|]
  {
    if s != [] && IsTrimmable(s[|s| - 1]) {
      TrimEndIsPrefix(s[..|s| - 1]);
    }
  }

  /** `Trim(s)` is the middle of `s`, starting where the leading run of
      whitespace ends. */
  lemma TrimIsInfix(s: string)
    ensures |s| - |TrimStart(s)| + |Trim(s)| <= |s|
    ensures Trim(s) == s[|s| - |TrimStart(s)|..|s| - |TrimStart(s)| + |Trim(s)|]
  {
    TrimStartIsSuffix(s);
    TrimEndIsPrefix(TrimStart(s));
  }

  /** Trimming twice is trimming once. */
  lemma TrimIdempotent(s: string)
    ensures Trim(Trim(s)) == Trim(s)
  {
  }

  const SpecialChars: string := "!@#$%^&*()_+-=[]{};':\"\\|,.<>/?"

  /** The bracket classes and the dot used by the schemas' patterns. */
  datatype CharClass = AnyButLineTerminator | LowerLetter | UpperLetter | Digit | Special | UsernameChar

  predicate InClass(cls: CharClass, c: char)
  {
    match cls
    case AnyButLineTerminator => !IsLineTerminator(c)
    case LowerLetter => 'a' <= c <= 'z'
    case UpperLetter => 'A' <= c <= 'Z'
    case Digit => '0' <= c <= '9'
    case Special => c in SpecialChars
    case UsernameChar => 'a' <= c <= 'z' || 'A' <= c <= 'Z' || '0' <= c <= '9' || c == '_' || c == '-'
  }

  /** The two pattern shapes: `/[c]/` finds one class member anywhere;
      `/^[c]{min,}$/` needs the whole input to be at least `min` members. */
  datatype Pattern = Somewhere(cls: CharClass) | Whole(cls: CharClass, min: nat)

  /** Length of the longest prefix made of class members. */
  function Span(cls: CharClass, s: string): (n: nat)
    ensures n <= |s|
    ensures forall i :: 0 <= i < n ==> InClass(cls, s[i])
    ensures n < |s| ==> !InClass(cls, s[n])
  {
    if s != [] && InClass(cls, s[0]) then 1 + Span(cls, s[1..]) else 0
  }

  /** Scans for a class member. */
  function Occurs(cls: CharClass, s: string): (b: bool)
    ensures b <==> exists i :: 0 <= i < |s| && InClass(cls, s[i])
  {
    if s == [] then false
    else if InClass(cls, s[0]) then true
    else
      var rest := Occurs(cls, s[1..]);
      assert forall i :: 1 <= i < |s| ==> s[i] == s[1..][i - 1];
      rest
  }

  /** `RegExp.prototype.test` for the two pattern shapes. */
  function Test(p: Pattern, s: string): (b: bool)
    ensures p.Somewhere? ==> (b <==> exists i :: 0 <= i < |s| && InClass(p.cls, s[i]))
    ensures p.Whole? ==> (b <==> p.min <= |s| && forall i :: 0 <= i < |s| ==> InClass(p.cls, s[i]))
  {
    match p
    case Somewhere(cls) => Occurs(cls, s)
    case Whole(cls, min) => min <= |s| && Span(cls, s) == |s|
  }

  datatype Requirement = Requirement(pattern: Pattern, message: string)

  const LengthMessage := "Password must be at least 12 characters long"
  const LowerMessage := "Password must contain at least one lowercase letter"
  const UpperMessage := "Password must contain at least one uppercase letter"
  const DigitMessage := "Password must contain at least one number"
  const SpecialMessage := "Password must contain at least one special character"

  /** `passwordRequirements`, in list order. */
  const PasswordRequirements: seq<Requirement> := [
    Requirement(Whole(AnyButLineTerminator, 12), LengthMessage),
    Requirement(Somewhere(LowerLetter), LowerMessage),
    Requirement(Somewhere(UpperLetter), UpperMessage),
    Requirement(Somewhere(Digit), DigitMessage),
    Requirement(Somewhere(Special), SpecialMessage)
  ]

  /** The messages one requirement contributes: none when its pattern matches. */
  function Check(req: Requirement, pw: string): seq<string>
  {
    if Test(req.pattern, pw) then [] else [req.message]
  }

  /** The `superRefine` step: one message per requirement the password fails. */
  function FailedMessages(reqs: seq<Requirement>, pw: string): (msgs: seq<string>)
    ensures |msgs| <= |reqs|
    ensures msgs == [] <==> forall k :: 0 <= k < |reqs| ==> Test(reqs[k].pattern, pw)
  {
    if reqs == [] then []
    else
      var rest := FailedMessages(reqs[1..], pw);
      assert forall k :: 1 <= k < |reqs| ==> reqs[k] == reqs[1..][k - 1];
      Check(reqs[0], pw) + rest
  }

  function PasswordIssues(pw: string): seq<string>
  {
    FailedMessages(PasswordRequirements, pw)
  }

  predicate HasLongEnough(pw: string) { 12 <= |pw| && forall i :: 0 <= i < |pw| ==> !IsLineTerminator(pw[i]) }
  predicate HasLower(pw: string) { exists i :: 0 <= i < |pw| && 'a' <= pw[i] <= 'z' }
  predicate HasUpper(pw: string) { exists i :: 0 <= i < |pw| && 'A' <= pw[i] <= 'Z' }
  predicate HasDigit(pw: string) { exists i :: 0 <= i < |pw| && '0' <= pw[i] <= '9' }
  predicate HasSpecial(pw: string) { exists i :: 0 <= i < |pw| && pw[i] in SpecialChars }

  /** The password strength the form asks for, stated without patterns. */
  predicate StrongPassword(pw: string)
  {
    HasLongEnough(pw) && HasLower(pw) && HasUpper(pw) && HasDigit(pw) && HasSpecial(pw)
  }

  /** The list filter unrolled over the five requirements. */
  lemma PasswordIssuesUnrolled(pw: string)
    ensures PasswordIssues(pw) == Check(PasswordRequirements[0], pw) + Check(PasswordRequirements[1], pw)
      + Check(PasswordRequirements[2], pw) + Check(PasswordRequirements[3], pw) + Check(PasswordRequirements[4], pw)
  {
    var r := PasswordRequirements;
    assert r[4..][1..] == [];
    assert FailedMessages(r[4..], pw) == Check(r[4], pw);
    assert r[3..][1..] == r[4..];
    assert FailedMessages(r[3..], pw) == Check(r[3], pw) + Check(r[4], pw);
    assert r[2..][1..] == r[3..];
    assert FailedMessages(r[2..], pw) == Check(r[2], pw) + Check(r[3], pw) + Check(r[4], pw);
    assert r[1..][1..] == r[2..];
    assert FailedMessages(r[1..], pw) == Check(r[1], pw) + Check(r[2], pw) + Check(r[3], pw) + Check(r[4], pw);
  }

  /** Exactly one issue per failed requirement, in list order; none iff the
      password is strong. */
  lemma PasswordIssuesExact(pw: string)
    ensures PasswordIssues(pw) ==
      (if HasLongEnough(pw) then [] else [LengthMessage])
      + (if HasLower(pw) then [] else [LowerMessage])
      + (if HasUpper(pw) then [] else [UpperMessage])
      + (if HasDigit(pw) then [] else [DigitMessage])
      + (if HasSpecial(pw) then [] else [SpecialMessage])
    ensures PasswordIssues(pw) == [] <==> StrongPassword(pw)
  {
    PasswordIssuesUnrolled(pw);
    var r := PasswordRequirements;
    assert Check(r[0], pw) == (if HasLongEnough(pw) then [] else [LengthMessage]);
    assert Check(r[1], pw) == (if HasLower(pw) then [] else [LowerMessage]);
    assert Check(r[2], pw) == (if HasUpper(pw) then [] else [UpperMessage]);
    assert Check(r[3], pw) == (if HasDigit(pw) then [] else [DigitMessage]);
    assert Check(r[4], pw) == (if HasSpecial(pw) then [] else [SpecialMessage]);
  }

  const DisplayNameMessage := "Display name must be at least 1 character"
  const UsernameLengthMessage := "Username must be at least 3 characters long"
  const UsernameCharsMessage := "Username can only contain letters, numbers, underscores, and hyphens"
  const EmailMessage := "Invalid email address"
  const MismatchMessage := "Passwords do not match"
  const PasswordRequiredMessage := "Password is required."

  /** `/^[a-zA-Z0-9_-]+$/` accepts `u`: at least one character, all allowed. */
  predicate UsernameCharsOk(u: string)
  {
    u != [] && forall i :: 0 <= i < |u| ==> InClass(UsernameChar, u[i])
  }

  /** The issues of the `username` field: length then character set, both checked. */
  function UsernameIssues(raw: string): (msgs: seq<string>)
    ensures msgs == [] <==> 3 <= |Trim(raw)| && forall i :: 0 <= i < |Trim(raw)| ==> InClass(UsernameChar, Trim(raw)[i])
    ensures UsernameLengthMessage in msgs <==> |Trim(raw)| < 3
    ensures UsernameCharsMessage in msgs <==> !UsernameCharsOk(Trim(raw))
    ensures |Trim(raw)| < 3 && UsernameCharsOk(Trim(raw)) ==> msgs == [UsernameLengthMessage]
    ensures |Trim(raw)| < 3 && !UsernameCharsOk(Trim(raw)) ==> msgs == [UsernameLengthMessage, UsernameCharsMessage]
    ensures |Trim(raw)| >= 3 && !UsernameCharsOk(Trim(raw)) ==> msgs == [UsernameCharsMessage]
  {
    var u := Trim(raw);
    (if |u| < 3 then [UsernameLengthMessage] else [])
    + (if Test(Whole(UsernameChar, 1), u) then [] else [UsernameCharsMessage])
  }

  datatype Field = DisplayNameField | UsernameField | EmailField | PasswordField | ConfirmPasswordField

  datatype Issue = Issue(field: Field, message: string)

  function Tag(f: Field, msgs: seq<string>): (issues: seq<Issue>)
    ensures |issues| == |msgs|
    ensures forall x :: x in issues ==> x.field == f
    ensures issues != [] ==> issues[0] == Issue(f, msgs[0])
  {
    if msgs == [] then [] else [Issue(f, msgs[0])] + Tag(f, msgs[1..])
  }

  datatype SignUpValues = SignUpValues(displayName: string, username: string, email: string, password: string, confirmPassword: string)

  predicate DisplayNameOk(v: SignUpValues) { 1 <= |Trim(v.displayName)| }

  predicate UsernameOk(v: SignUpValues)
  {
    3 <= |Trim(v.username)| && forall i :: 0 <= i < |Trim(v.username)| ==> InClass(UsernameChar, Trim(v.username)[i])
  }

  /** Whether a sign-up form passes, stated field by field without patterns;
      `isEmail` is zod's e-mail format check. */
  predicate SignUpValid(v: SignUpValues, isEmail: string -> bool)
  {
    && DisplayNameOk(v)
    && UsernameOk(v)
    && isEmail(Trim(v.email))
    && StrongPassword(Trim(v.password))
    && Trim(v.password) == Trim(v.confirmPassword)
  }

  lemma NoFieldInConcat(x: seq<Issue>, y: seq<Issue>, f: Field)
    requires forall i :: i in x ==> i.field != f
    requires forall i :: i in y ==> i.field != f
    ensures forall i :: i in x + y ==> i.field != f
  {
  }

  /** The issues of the five fields, in field order. */
  function FieldIssues(v: SignUpValues, isEmail: string -> bool): (issues: seq<Issue>)
    ensures issues == [] <==> DisplayNameOk(v) && UsernameOk(v) && isEmail(Trim(v.email)) && StrongPassword(Trim(v.password))
    ensures forall x :: x in issues ==> x.field != ConfirmPasswordField
  {
    var pw := Trim(v.password);
    var a := Tag(DisplayNameField, if DisplayNameOk(v) then [] else [DisplayNameMessage]);
    var b := Tag(UsernameField, UsernameIssues(v.username));
    var c := Tag(EmailField, if isEmail(Trim(v.email)) then [] else [EmailMessage]);
    var d := Tag(PasswordField, PasswordIssues(pw));
    assert a == [] <==> DisplayNameOk(v);
    assert b == [] <==> UsernameOk(v);
    assert c == [] <==> isEmail(Trim(v.email));
    assert d == [] <==> StrongPassword(pw) by { PasswordIssuesExact(pw); }
    NoFieldInConcat(a, b, ConfirmPasswordField);
    NoFieldInConcat(a + b, c, ConfirmPasswordField);
    NoFieldInConcat(a + b + c, d, ConfirmPasswordField);
    a + b + c + d
  }

  /** `signUpSchema.safeParse(...).error.errors`: every field's issues in
      field order, then the object-level confirm-password refinement. */
  function SignUpIssues(v: SignUpValues, isEmail: string -> bool): (issues: seq<Issue>)
    ensures issues == [] <==> SignUpValid(v, isEmail)
    ensures Issue(ConfirmPasswordField, MismatchMessage) in issues <==> Trim(v.password) != Trim(v.confirmPassword)
  {
    var fields := FieldIssues(v, isEmail);
    var e := Tag(ConfirmPasswordField, if Trim(v.password) == Trim(v.confirmPassword) then [] else [MismatchMessage]);
    assert Issue(ConfirmPasswordField, MismatchMessage) !in fields;
    fields + e
  }

  /** The issue a failing sign-up form reports, read off the fields in form
      order without building the issue list. */
  function ExpectedFirstIssue(v: SignUpValues, isEmail: string -> bool): Issue
  {
    if !DisplayNameOk(v) then Issue(DisplayNameField, DisplayNameMessage)
    else if !UsernameOk(v) then
      Issue(UsernameField, if |Trim(v.username)| < 3 then UsernameLengthMessage else UsernameCharsMessage)
    else if !isEmail(Trim(v.email)) then Issue(EmailField, EmailMessage)
    else if !HasLongEnough(Trim(v.password)) then Issue(PasswordField, LengthMessage)
    else if !HasLower(Trim(v.password)) then Issue(PasswordField, LowerMessage)
    else if !HasUpper(Trim(v.password)) then Issue(PasswordField, UpperMessage)
    else if !HasDigit(Trim(v.password)) then Issue(PasswordField, DigitMessage)
    else if !HasSpecial(Trim(v.password)) then Issue(PasswordField, SpecialMessage)
    else Issue(ConfirmPasswordField, MismatchMessage)
  }

  /** The issue list as the concatenation of its per-field parts. */
  lemma SignUpIssuesParts(v: SignUpValues, isEmail: string -> bool)
    ensures SignUpIssues(v, isEmail) ==
      Tag(DisplayNameField, if DisplayNameOk(v) then [] else [DisplayNameMessage])
      + Tag(UsernameField, UsernameIssues(v.username))
      + Tag(EmailField, if isEmail(Trim(v.email)) then [] else [EmailMessage])
      + Tag(PasswordField, PasswordIssues(Trim(v.password)))
      + Tag(ConfirmPasswordField, if Trim(v.password) == Trim(v.confirmPassword) then [] else [MismatchMessage])
  {
  }

  lemma FirstIssueDisplayName(v: SignUpValues, isEmail: string -> bool)
    requires !DisplayNameOk(v)
    ensures SignUpIssues(v, isEmail)[0] == Issue(DisplayNameField, DisplayNameMessage)
  {
    SignUpIssuesParts(v, isEmail);
  }

  lemma FirstIssueUsername(v: SignUpValues, isEmail: string -> bool)
    requires DisplayNameOk(v) && UsernameIssues(v.username) != []
    ensures SignUpIssues(v, isEmail)[0] == Issue(UsernameField, UsernameIssues(v.username)[0])
  {
    SignUpIssuesParts(v, isEmail);
  }

  lemma FirstIssueEmail(v: SignUpValues, isEmail: string -> bool)
    requires DisplayNameOk(v) && UsernameIssues(v.username) == [] && !isEmail(Trim(v.email))
    ensures SignUpIssues(v, isEmail)[0] == Issue(EmailField, EmailMessage)
  {
    SignUpIssuesParts(v, isEmail);
  }

  lemma FirstIssuePassword(v: SignUpValues, isEmail: string -> bool)
    requires DisplayNameOk(v) && UsernameIssues(v.username) == [] && isEmail(Trim(v.email))
    requires PasswordIssues(Trim(v.password)) != []
    ensures SignUpIssues(v, isEmail)[0] == Issue(PasswordField, PasswordIssues(Trim(v.password))[0])
  {
    SignUpIssuesParts(v, isEmail);
  }

  lemma FirstIssueMismatch(v: SignUpValues, isEmail: string -> bool)
    requires DisplayNameOk(v) && UsernameIssues(v.username) == [] && isEmail(Trim(v.email))
    requires PasswordIssues(Trim(v.password)) == [] && Trim(v.password) != Trim(v.confirmPassword)
    ensures SignUpIssues(v, isEmail) == [Issue(ConfirmPasswordField, MismatchMessage)]
  {
    SignUpIssuesParts(v, isEmail);
  }

  /** The first issue, whose message the actions report, belongs to the
      first failing field in form order. */
  lemma SignUpFirstIssue(v: SignUpValues, isEmail: string -> bool)
    ensures SignUpIssues(v, isEmail) != [] ==> SignUpIssues(v, isEmail)[0] == ExpectedFirstIssue(v, isEmail)
  {
    if !DisplayNameOk(v) {
      FirstIssueDisplayName(v, isEmail);
    } else if UsernameIssues(v.username) != [] {
      FirstIssueUsername(v, isEmail);
    } else if !isEmail(Trim(v.email)) {
      FirstIssueEmail(v, isEmail);
    } else {
      var pw := Trim(v.password);
      PasswordIssuesExact(pw);
      if PasswordIssues(pw) != [] {
        FirstIssuePassword(v, isEmail);
      } else if pw != Trim(v.confirmPassword) {
        FirstIssueMismatch(v, isEmail);
      }
    }
  }

  /** The trimmed values `safeParse` hands back on success. */
  function Parsed(v: SignUpValues): SignUpValues
  {
    SignUpValues(Trim(v.displayName), Trim(v.username), Trim(v.email), Trim(v.password), Trim(v.confirmPassword))
  }

  datatype LoginValues = LoginValues(email: string, password: string)

  /** `loginSchema.safeParse(...).error.errors`: e-mail format, then a
      non-empty trimmed password. */
  function LoginIssues(v: LoginValues, isEmail: string -> bool): (issues: seq<Issue>)
    ensures issues == [] <==> isEmail(Trim(v.email)) && Trim(v.password) != []
    ensures Issue(PasswordField, PasswordRequiredMessage) in issues <==> Trim(v.password) == []
    ensures !isEmail(Trim(v.email)) ==> issues[0] == Issue(EmailField, EmailMessage)
    ensures isEmail(Trim(v.email)) && Trim(v.password) == [] ==> issues == [Issue(PasswordField, PasswordRequiredMessage)]
    ensures !isEmail(Trim(v.email)) && Trim(v.password) == [] ==>
              issues == [Issue(EmailField, EmailMessage), Issue(PasswordField, PasswordRequiredMessage)]
    ensures !isEmail(Trim(v.email)) && Trim(v.password) != [] ==> issues == [Issue(EmailField, EmailMessage)]
  {
    var a := Tag(EmailField, if isEmail(Trim(v.email)) then [] else [EmailMessage]);
    var b := Tag(PasswordField, if Trim(v.password) != [] then [] else [PasswordRequiredMessage]);
    assert Issue(PasswordField, PasswordRequiredMessage) !in a;
    a + b
  }
}
