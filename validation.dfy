/** The express-validator chains that run before each auth handler. Only the
    rules that are plain string checks are modelled: `trim().notEmpty()`,
    `notEmpty()` and `isLength`; `isEmail` is not part of this model. */
module Validation {

  /** JavaScript's `\s` class, which validator.js's `trim` strips. */
  predicate IsWhitespace(c: char) {
    || c == ' ' || c == '\t' || c == '\n' || c == '\U{B}' || c == '\U{C}' || c == '\r'
    || c == '\U{A0}' || c == '\U{1680}' || ('\U{2000}' <= c <= '\U{200A}')
    || c == '\U{2028}' || c == '\U{2029}' || c == '\U{202F}' || c == '\U{205F}'
    || c == '\U{3000}' || c == '\U{FEFF}'
  }

  ghost predicate Blank(s: string) {
    forall i :: 0 <= i < |s| ==> IsWhitespace(s[i])
  }

  /** Removes the longest whitespace prefix. */
  function TrimStart(s: string): (r: string)
    ensures |r| <= |s| && r == s[|s| - |r|..]
    ensures forall i :: 0 <= i < |s| - |r| ==> IsWhitespace(s[i])
    ensures r == [] || !IsWhitespace(r[0])
  {
    if s != [] && IsWhitespace(s[0]) then TrimStart(s[1..]) else s
  }

  /** Removes the longest whitespace suffix. */
  function TrimEnd(s: string): (r: string)
    ensures |r| <= |s| && r == s[..|r|]
    ensures forall i :: |r| <= i < |s| ==> IsWhitespace(s[i])
    ensures r == [] || !IsWhitespace(r[|r| - 1])
  {
    if s != [] && IsWhitespace(s[|s| - 1]) then TrimEnd(s[..|s| - 1]) else s
  }

  /** The `trim()` sanitizer: it also rewrites the field the handler reads. */
  function Trim(s: string): string {
    TrimEnd(TrimStart(s))
  }

  /** A trimmed value is empty exactly when the raw value is all whitespace,
      and otherwise neither starts nor ends with whitespace. */
  lemma TrimEmptyIffBlank(s: string)
    ensures Trim(s) == [] <==> Blank(s)
    ensures Trim(s) != [] ==> !IsWhitespace(Trim(s)[0]) && !IsWhitespace(Trim(s)[|Trim(s)| - 1])
  {
    var t := TrimStart(s);
    var r := TrimEnd(t);
    var cut := |s| - |t|;
    if r == [] {
      assert t[|r|..] == t;
      assert t == [];
      assert s[..cut] == s;
    } else {
      assert r[0] == t[0] == s[cut];
      assert !Blank(s) by {
        assert !IsWhitespace(s[cut]);
      }
    }
  }

  /** The codes `generateOTP` can produce: `Math.floor(100000 + Math.random() * 900000)`
      printed in decimal, that is six digits with no leading zero. */
  predicate IsGeneratedCode(c: string) {
    |c| == 6 && '1' <= c[0] <= '9' && forall i :: 1 <= i < 6 ==> '0' <= c[i] <= '9'
  }

  const NameRequired := "Name is required"
  const OtpMustBeSixDigits := "OTP must be 6 digits"
  const OtpRequired := "OTP is required"
  const PasswordTooShort := "Password must be at least 6 characters"
  const PasswordRequired := "Password is required"

  /** One message per failing rule, in the order the chains are declared. */
  function Rule(ok: bool, message: string): seq<string> {
    if ok then [] else [message]
  }

  /** send-otp: `name` must not be blank. */
  function SendOtpErrors(name: string): (errors: seq<string>)
    ensures errors == [] <==> !Blank(name)
    ensures errors != [] ==> errors == [NameRequired]
  {
    TrimEmptyIffBlank(name);
    Rule(Trim(name) != [], NameRequired)
  }

  /** verify-otp: `otp` must be exactly six characters long. */
  function VerifyOtpErrors(otp: string): (errors: seq<string>)
    ensures errors == [] <==> |otp| == 6
    ensures errors != [] ==> errors == [OtpMustBeSixDigits]
  {
    Rule(|otp| == 6, OtpMustBeSixDigits)
  }

  /** signup: a non-blank name, a password of at least six characters and a
      six-character code; every failing rule is reported. */
  function SignupErrors(name: string, password: string, otp: string): (errors: seq<string>)
    ensures errors == [] <==> !Blank(name) && |password| >= 6 && |otp| == 6
    ensures NameRequired in errors <==> Blank(name)
    ensures PasswordTooShort in errors <==> |password| < 6
    ensures OtpRequired in errors <==> |otp| != 6
    ensures errors == (if Blank(name) then [NameRequired] else [])
                    + (if |password| < 6 then [PasswordTooShort] else [])
                    + (if |otp| != 6 then [OtpRequired] else [])
  {
    TrimEmptyIffBlank(name);
    var nameErrors, passwordErrors, otpErrors := Rule(Trim(name) != [], NameRequired),
      Rule(|password| >= 6, PasswordTooShort), Rule(|otp| == 6, OtpRequired);
    var errors := nameErrors + passwordErrors + otpErrors;
    assert forall m :: m in errors <==> m in nameErrors || m in passwordErrors || m in otpErrors;
    assert NameRequired != PasswordTooShort && NameRequired != OtpRequired && PasswordTooShort != OtpRequired by {
      assert |NameRequired| == 16 && |PasswordTooShort| == 38 && |OtpRequired| == 15;
    }
    errors
  }

  /** login: the password must not be empty. */
  function LoginErrors(password: string): (errors: seq<string>)
    ensures errors == [] <==> password != []
    ensures errors != [] ==> errors == [PasswordRequired]
  {
    Rule(password != [], PasswordRequired)
  }

  /** reset-password: a six-character code and a new password of at least six characters. */
  function ResetPasswordErrors(otp: string, newPassword: string): (errors: seq<string>)
    ensures errors == [] <==> |otp| == 6 && |newPassword| >= 6
    ensures OtpMustBeSixDigits in errors <==> |otp| != 6
    ensures PasswordTooShort in errors <==> |newPassword| < 6
    ensures errors == (if |otp| != 6 then [OtpMustBeSixDigits] else [])
                    + (if |newPassword| < 6 then [PasswordTooShort] else [])
  {
    var otpErrors, passwordErrors := Rule(|otp| == 6, OtpMustBeSixDigits), Rule(|newPassword| >= 6, PasswordTooShort);
    assert forall m :: m in otpErrors + passwordErrors <==> m in otpErrors || m in passwordErrors;
    assert OtpMustBeSixDigits != PasswordTooShort by {
      assert |OtpMustBeSixDigits| == 20 && |PasswordTooShort| == 38;
    }
    otpErrors + passwordErrors
  }
}
