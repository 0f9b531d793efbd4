/** What the auth handlers promise, stated over the transitions of `Auth`. */
module AuthProperties {
  import opened Outcomes
  import opened Validation
  import opened Credentials
  import opened OtpTable
  import opened UserTable
  import opened Auth

  // send-otp and forgot-password

  /** send-otp for an email that already has an account is refused and
      stores no code. */
  lemma SendOtpRefusesExistingAccount(s: AuthState, email: string, name: string, otp: string, now: int, delivered: bool)
    requires !Blank(name) && FindByEmail(s.users, email).Some?
    ensures SendOtp(s, email, name, otp, now, delivered) == Step(s, Err(UserExistsWithEmail))
  {
  }

  /** A successful send-otp leaves the email exactly one code: fresh,
      unverified, expiring ten minutes later. The codes of other emails and the
      accounts are untouched, and a failed delivery does not roll the row back. */
  lemma SendOtpSupersedes(s: AuthState, email: string, name: string, otp: string, now: int, delivered: bool, other: string)
    requires !Blank(name) && FindByEmail(s.users, email).None?
    ensures var step := SendOtp(s, email, name, otp, now, delivered);
      && CodesFor(step.state.otps, email) == [OtpRow(s.nextOtpId, email, otp, now + 600000, false, now)]
      && (other != email ==> CodesFor(step.state.otps, other) == CodesFor(s.otps, other))
      && step.state.users == s.users
      && step.reply == if delivered then Ok(OtpSent) else Err(SignupMailFailed)
  {
    SupersedeLeavesOne(s.otps, IssuedRow(s, email, otp, now), other);
  }

  /** Requesting a code twice leaves only the second one. */
  lemma SendOtpTwiceKeepsLatest(s: AuthState, email: string, name: string, otp1: string, otp2: string,
                                now1: int, now2: int, delivered1: bool, delivered2: bool)
    requires !Blank(name) && FindByEmail(s.users, email).None?
    ensures var s1 := SendOtp(s, email, name, otp1, now1, delivered1).state;
      CodesFor(SendOtp(s1, email, name, otp2, now2, delivered2).state.otps, email)
        == [OtpRow(s.nextOtpId + 1, email, otp2, now2 + OtpLifetimeMs, false, now2)]
  {
    var s1 := SendOtp(s, email, name, otp1, now1, delivered1).state;
    assert s1.users == s.users && s1.nextOtpId == s.nextOtpId + 1 by {
      assert SendOtpErrors(name) == [];
    }
    SendOtpSupersedes(s1, email, name, otp2, now2, delivered2, email);
  }

  /** forgot-password for an email with no account is refused and stores no code. */
  lemma ForgotPasswordRefusesUnknownEmail(s: AuthState, email: string, otp: string, now: int, delivered: bool)
    requires FindByEmail(s.users, email).None?
    ensures ForgotPassword(s, email, otp, now, delivered) == Step(s, Err(NoAccountWithEmail))
  {
  }

  /** forgot-password supersedes the codes of the email exactly as send-otp does. */
  lemma ForgotPasswordSupersedes(s: AuthState, email: string, otp: string, now: int, delivered: bool, other: string)
    requires FindByEmail(s.users, email).Some?
    ensures var step := ForgotPassword(s, email, otp, now, delivered);
      && CodesFor(step.state.otps, email) == [OtpRow(s.nextOtpId, email, otp, now + 600000, false, now)]
      && (other != email ==> CodesFor(step.state.otps, other) == CodesFor(s.otps, other))
      && step.state.users == s.users
      && step.reply == if delivered then Ok(OtpSent) else Err(ResetMailFailed)
  {
    SupersedeLeavesOne(s.otps, IssuedRow(s, email, otp, now), other);
  }

  // verify-otp

  /** verify-otp on a six-character code: "Invalid OTP" exactly when the email
      has no unverified row with that code; "expired" exactly when it has one
      and the clock is strictly past its expiry; otherwise that one row, and
      nothing else, gets its flag set. A refusal changes nothing. */
  lemma VerifyOtpOutcome(s: AuthState, email: string, otp: string, now: int)
    requires s.Valid() && |otp| == 6
    ensures var step := VerifyOtp(s, email, otp, now);
      && (step.reply == Err(InvalidOtp) <==> forall x :: x in s.otps ==> !Selects(x, email, otp, OnlyUnverified))
      && (step.reply == Err(OtpHasExpired) <==>
            exists x :: x in s.otps && Selects(x, email, otp, OnlyUnverified) && Expired(x, now))
      && (step.reply.Err? ==> step.state == s)
      && (step.reply.Ok? ==>
            && step.reply == Ok(EmailVerified)
            && exists k :: 0 <= k < |s.otps| && Selects(s.otps[k], email, otp, OnlyUnverified) &&
                 !Expired(s.otps[k], now) &&
                 step.state == s.(otps := s.otps[k := s.otps[k].(verified := true)]))
  {
    var step := VerifyOtp(s, email, otp, now);
    assert InvalidOtp != OtpHasExpired by {
      assert |InvalidOtp.message| != |OtpHasExpired.message|;
    }
    match Latest(s.otps, email, otp, OnlyUnverified)
    case None =>
    case Some(row) =>
      forall x | x in s.otps && Selects(x, email, otp, OnlyUnverified) ensures x == row {
        LatestIsOnlyRow(s.otps, x, OnlyUnverified);
      }
      if !Expired(row, now) {
        var k := FoundAt(s.otps, row);
        MarkVerifiedFlipsOne(s.otps, k);
      }
  }

  /** The expiry comparison is strict: a code is still accepted at the very
      instant it expires, and refused one millisecond later. */
  lemma VerifyOtpExpiryBoundary(s: AuthState, row: OtpRow)
    requires s.Valid() && row in s.otps && !row.verified
    ensures VerifyOtp(s, row.email, row.otp, row.expiresAt).reply == Ok(EmailVerified)
    ensures VerifyOtp(s, row.email, row.otp, row.expiresAt + 1).reply == Err(OtpHasExpired)
  {
    LatestIsOnlyRow(s.otps, row, OnlyUnverified);
  }

  // signup

  /** signup succeeds only with a code that is already marked verified for
      that email; whether that code has expired is not looked at. */
  lemma SignupNeedsVerifiedCode(s: AuthState, name: string, email: string, password: string, otp: string, salt: nat, now: int)
    requires Signup(s, name, email, password, otp, salt, now).reply.Ok?
    ensures exists x :: x in s.otps && x.email == email && x.otp == otp && x.verified
  {
  }

  /** signup with well-formed fields replies "Please verify your email with
      OTP first" exactly when the email has no verified row with that code,
      and any refusal leaves both tables as they were. */
  lemma SignupRefusals(s: AuthState, name: string, email: string, password: string, otp: string, salt: nat, now: int)
    ensures var step := Signup(s, name, email, password, otp, salt, now);
      && (step.reply == Err(VerifyFirst) <==>
            SignupErrors(name, password, otp) == [] &&
            forall x :: x in s.otps ==> !(x.email == email && x.otp == otp && x.verified))
      && (step.reply.Err? ==> step.state == s)
  {
    assert VerifyFirst != UserExists by {
      assert |VerifyFirst.message| != |UserExists.message|;
    }
  }

  /** A successful signup adds exactly one account, with the trimmed name, a
      digest of the password and the email marked verified, and deletes every
      code of that email; other emails keep their codes. */
  lemma SignupOutcome(s: AuthState, name: string, email: string, password: string, otp: string, salt: nat, now: int,
                      other: string)
    requires Signup(s, name, email, password, otp, salt, now).reply.Ok?
    ensures var step := Signup(s, name, email, password, otp, salt, now);
      && step.reply == Ok(SignedUp(AccountCreated, PublicUser(s.nextUserId, Trim(name), email)))
      && step.state.users == s.users + [UserRow(s.nextUserId, Trim(name), email, HashPassword(password, salt), true, now, None)]
      && FindByEmail(s.users, email).None?
      && CodesFor(step.state.otps, email) == []
      && (other != email ==> CodesFor(step.state.otps, other) == CodesFor(s.otps, other))
  {
    CodesForWithoutSame(s.otps, email);
    if other != email {
      CodesForWithoutOther(s.otps, email, other);
    }
  }

  /** signup for an email that already has an account is refused, even with a
      verified code, and changes nothing. */
  lemma SignupRefusesExistingAccount(s: AuthState, name: string, email: string, password: string, otp: string,
                                     salt: nat, now: int)
    requires SignupErrors(name, password, otp) == []
    requires Latest(s.otps, email, otp, OnlyVerified).Some? && FindByEmail(s.users, email).Some?
    ensures Signup(s, name, email, password, otp, salt, now) == Step(s, Err(UserExists))
  {
  }

  /** Once an email has no codes left, no code of it verifies, signs up or
      resets a password. */
  lemma NoCodesRefuseEverything(s: AuthState, email: string)
    requires CodesFor(s.otps, email) == []
    ensures forall otp, now :: |otp| == 6 ==> VerifyOtp(s, email, otp, now) == Step(s, Err(InvalidOtp))
    ensures forall otp :: Latest(s.otps, email, otp, OnlyVerified).None?
    ensures forall otp, newPassword, salt, now :: |otp| == 6 && |newPassword| >= 6 ==>
      ResetPassword(s, email, otp, newPassword, salt, now) == Step(s, Err(InvalidOtp))
  {
    assert forall x :: x in s.otps ==> x.email != email;
  }

  /** Single use: after a successful signup the code is consumed, so the same
      code (or any other) no longer verifies, signs up or resets a password. */
  lemma SignupConsumesCode(s: AuthState, name: string, email: string, password: string, otp: string, salt: nat, now: int)
    requires Signup(s, name, email, password, otp, salt, now).reply.Ok?
    ensures CodesFor(Signup(s, name, email, password, otp, salt, now).state.otps, email) == []
    ensures forall later :: VerifyOtp(Signup(s, name, email, password, otp, salt, now).state, email, otp, later).reply
                            == Err(InvalidOtp)
  {
    var s' := Signup(s, name, email, password, otp, salt, now).state;
    SignupOutcome(s, name, email, password, otp, salt, now, email);
    NoCodesRefuseEverything(s', email);
  }

  // login

  /** login refuses an unknown email and a wrong password with the same reply,
      and neither refusal changes the tables. */
  lemma LoginRefusalsIndistinguishable(s: AuthState, unknown: string, anyPassword: string,
                                       known: string, wrongPassword: string, now: int)
    requires anyPassword != [] && wrongPassword != []
    requires FindByEmail(s.users, unknown).None?
    requires FindByEmail(s.users, known).Some? && !Matches(wrongPassword, FindByEmail(s.users, known).value.password)
    ensures Login(s, unknown, anyPassword, now) == Login(s, known, wrongPassword, now) == Step(s, Err(InvalidCredentials))
  {
  }

  /** login succeeds exactly when an account has that email and the password
      matches its digest. */
  lemma LoginSucceedsIff(s: AuthState, email: string, password: string, now: int)
    requires s.Valid() && password != []
    ensures Login(s, email, password, now).reply.Ok? <==>
      exists u :: u in s.users && u.email == email && Matches(password, u.password)
  {
    var found := FindByEmail(s.users, email);
    forall u | u in s.users && u.email == email ensures found == Some(u) {
      var i := FoundAt(s.users, u);
      var j := FoundAt(s.users, found.value);
    }
  }

  /** A successful login changes only the `last_login` of the account that
      logged in, and yields a token for that account's id and email that is
      valid for seven days from the current second. */
  lemma LoginOutcome(s: AuthState, email: string, password: string, now: int)
    requires s.Valid() && Login(s, email, password, now).reply.Ok?
    ensures var step := Login(s, email, password, now);
      exists k :: 0 <= k < |s.users| && s.users[k].email == email && Matches(password, s.users[k].password)
        && step.state == s.(users := s.users[k := s.users[k].(lastLogin := Some(now))])
        && step.reply.value.user == PublicUser(s.users[k].id, s.users[k].name, email)
        && step.reply.value.token.userId == s.users[k].id
        && step.reply.value.token.email == email
        && step.reply.value.token.expiresAt == step.reply.value.token.issuedAt + TokenLifetimeSeconds
  {
    var u := FindByEmail(s.users, email).value;
    var k := FoundAt(s.users, u);
    TouchLoginChangesOne(s.users, k, now);
  }

  // reset-password

  /** reset-password on well-formed fields succeeds exactly when the email has
      a row with that code, verified or not, that has not expired, and an
      account exists for the email. */
  lemma ResetPasswordSucceedsIff(s: AuthState, email: string, otp: string, newPassword: string, salt: nat, now: int)
    requires s.Valid() && |otp| == 6 && |newPassword| >= 6
    ensures ResetPassword(s, email, otp, newPassword, salt, now).reply.Ok? <==>
      && (exists x :: x in s.otps && x.email == email && x.otp == otp && !Expired(x, now))
      && (exists u :: u in s.users && u.email == email)
  {
    forall x | x in s.otps && x.email == email && x.otp == otp
      ensures Latest(s.otps, email, otp, AnyFlag) == Some(x)
    {
      LatestIsOnlyRow(s.otps, x, AnyFlag);
    }
  }

  /** The three refusals of reset-password after validation: "Invalid OTP"
      exactly when the email has no row with that code, "OTP has expired"
      exactly when it has one and the clock is strictly past its expiry, and
      "User not found" exactly when the code is good but no account has the
      email. Any refusal leaves both tables as they were. */
  lemma ResetPasswordRefusals(s: AuthState, email: string, otp: string, newPassword: string, salt: nat, now: int)
    requires s.Valid()
    ensures var step := ResetPassword(s, email, otp, newPassword, salt, now);
      var valid := ResetPasswordErrors(otp, newPassword) == [];
      && (step.reply == Err(InvalidOtp) <==>
            valid && forall x :: x in s.otps ==> !(x.email == email && x.otp == otp))
      && (step.reply == Err(OtpHasExpired) <==>
            valid && exists x :: x in s.otps && x.email == email && x.otp == otp && Expired(x, now))
      && (step.reply == Err(UserNotFound) <==>
            && valid
            && (exists x :: x in s.otps && x.email == email && x.otp == otp && !Expired(x, now))
            && forall u :: u in s.users ==> u.email != email)
      && (step.reply.Err? ==> step.state == s)
  {
    assert InvalidOtp != OtpHasExpired by {
      assert |InvalidOtp.message| != |OtpHasExpired.message|;
    }
    forall x | x in s.otps && x.email == email && x.otp == otp
      ensures Latest(s.otps, email, otp, AnyFlag) == Some(x)
    {
      LatestIsOnlyRow(s.otps, x, AnyFlag);
    }
  }

  /** A successful reset replaces the digest of that email's account and of no
      other, and deletes every code of the email. */
  lemma ResetPasswordOutcome(s: AuthState, email: string, otp: string, newPassword: string, salt: nat, now: int,
                             other: string)
    requires s.Valid() && ResetPassword(s, email, otp, newPassword, salt, now).reply.Ok?
    ensures var step := ResetPassword(s, email, otp, newPassword, salt, now);
      && step.reply == Ok(PasswordWasReset)
      && (exists k :: 0 <= k < |s.users| && s.users[k].email == email &&
            step.state.users == s.users[k := s.users[k].(password := HashPassword(newPassword, salt))])
      && CodesFor(step.state.otps, email) == []
      && (other != email ==> CodesFor(step.state.otps, other) == CodesFor(s.otps, other))
  {
    var step := ResetPassword(s, email, otp, newPassword, salt, now);
    var h := HashPassword(newPassword, salt);
    assert step.state.users == SetPassword(s.users, email, h) && step.state.otps == WithoutEmail(s.otps, email);
    var u := FindByEmail(s.users, email).value;
    var k := FoundAt(s.users, u);
    SetPasswordChangesOne(s.users, k, h);
    CodesForWithoutSame(s.otps, email);
    if other != email {
      CodesForWithoutOther(s.otps, email, other);
    }
  }

  /** Single use: after a successful reset the code no longer verifies and
      cannot reset the password again. */
  lemma ResetPasswordConsumesCode(s: AuthState, email: string, otp: string, newPassword: string, salt: nat, now: int)
    requires s.Valid() && ResetPassword(s, email, otp, newPassword, salt, now).reply.Ok?
    ensures var s' := ResetPassword(s, email, otp, newPassword, salt, now).state;
      && (forall later :: VerifyOtp(s', email, otp, later).reply == Err(InvalidOtp))
      && (forall password', salt', later :: |password'| >= 6 ==>
            ResetPassword(s', email, otp, password', salt', later).reply == Err(InvalidOtp))
  {
    var s' := ResetPassword(s, email, otp, newPassword, salt, now).state;
    ResetPasswordOutcome(s, email, otp, newPassword, salt, now, email);
    NoCodesRefuseEverything(s', email);
  }

  // The whole workflow on one email

  /** verify-otp accepts an unverified code up to and including its expiry
      instant, and the verified row then stays in the table. */
  lemma VerifyOtpAccepts(s: AuthState, row: OtpRow, now: int)
    requires s.Valid() && row in s.otps && !row.verified && now <= row.expiresAt
    ensures var step := VerifyOtp(s, row.email, row.otp, now);
      step.reply == Ok(EmailVerified) && step.state.Valid() && row.(verified := true) in step.state.otps
      && step.state.users == s.users && step.state.nextUserId == s.nextUserId
  {
    LatestIsOnlyRow(s.otps, row, OnlyUnverified);
    var k := FoundAt(s.otps, row);
    MarkVerifiedFlipsOne(s.otps, k);
    VerifyOtpKeepsValid(s, row.email, row.otp, now);
  }

  /** signup with well-formed fields and a verified code for an email with no
      account is accepted. */
  lemma SignupAccepts(s: AuthState, name: string, row: OtpRow, password: string, salt: nat, now: int)
    requires s.Valid() && row in s.otps && row.verified && FindByEmail(s.users, row.email).None?
    requires SignupErrors(name, password, row.otp) == []
    ensures Signup(s, name, row.email, password, row.otp, salt, now).reply.Ok?
  {
    LatestIsOnlyRow(s.otps, row, OnlyVerified);
  }

  /** The signup workflow end to end: request a code, verify it within its
      ten minutes, sign up with it. The account is created verified, the code
      then no longer verifies, and a new code request for the email is refused
      without storing a code. */
  lemma SignupWorkflow(s: AuthState, email: string, name: string, code: string, password: string,
                       t: int, wait: nat, salt: nat, later: int, code': string)
    requires s.Valid() && FindByEmail(s.users, email).None?
    requires !Blank(name) && IsGeneratedCode(code) && |password| >= 6 && wait <= OtpLifetimeMs
    ensures var sent := SendOtp(s, email, name, code, t, true);
      var verified := VerifyOtp(sent.state, email, code, t + wait);
      var signedUp := Signup(verified.state, name, email, password, code, salt, t + wait);
      && sent.reply == Ok(OtpSent)
      && verified.reply == Ok(EmailVerified)
      && signedUp.reply == Ok(SignedUp(AccountCreated, PublicUser(s.nextUserId, Trim(name), email)))
      && signedUp.state.users == s.users + [UserRow(s.nextUserId, Trim(name), email, HashPassword(password, salt),
                                                    true, t + wait, None)]
      && VerifyOtp(signedUp.state, email, code, later).reply == Err(InvalidOtp)
      && SendOtp(signedUp.state, email, name, code', later, true) == Step(signedUp.state, Err(UserExistsWithEmail))
  {
    var sent := SendOtp(s, email, name, code, t, true);
    var row := IssuedRow(s, email, code, t);
    assert sent.reply == Ok(OtpSent) && sent.state.Valid() && row in sent.state.otps by {
      SendOtpSupersedes(s, email, name, code, t, true, email);
      SendOtpKeepsValid(s, email, name, code, t, true);
      assert row in CodesFor(sent.state.otps, email);
    }
    var verified := VerifyOtp(sent.state, email, code, t + wait);
    assert verified.reply == Ok(EmailVerified) && verified.state.Valid() && row.(verified := true) in verified.state.otps
        && verified.state.users == s.users && verified.state.nextUserId == s.nextUserId by {
      VerifyOtpAccepts(sent.state, row, t + wait);
    }
    var signedUp := Signup(verified.state, name, email, password, code, salt, t + wait);
    assert signedUp.reply.Ok? by {
      SignupAccepts(verified.state, name, row.(verified := true), password, salt, t + wait);
    }
    assert signedUp.reply == Ok(SignedUp(AccountCreated, PublicUser(s.nextUserId, Trim(name), email)))
        && signedUp.state.users == s.users + [UserRow(s.nextUserId, Trim(name), email, HashPassword(password, salt),
                                                      true, t + wait, None)] by {
      SignupOutcome(verified.state, name, email, password, code, salt, t + wait, email);
    }
    assert VerifyOtp(signedUp.state, email, code, later).reply == Err(InvalidOtp) by {
      SignupConsumesCode(verified.state, name, email, password, code, salt, t + wait);
    }
    assert SendOtp(signedUp.state, email, name, code', later, true) == Step(signedUp.state, Err(UserExistsWithEmail)) by {
      assert signedUp.state.users[|s.users|] in signedUp.state.users;
    }
  }
}
