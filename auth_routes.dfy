/** The auth routes as an object holding the two tables. Each handler changes
    the tables step by step, in the order of the SQL statements it runs, and
    is proved to end in the state and reply of the matching transition of
    `Auth`, whose properties `AuthProperties` and `AuthTraces` prove. */
module AuthRoutes {
  import opened Outcomes
  import opened Validation
  import opened Credentials
  import opened OtpTable
  import opened UserTable
  import opened Auth

  class AuthRouter {
    var otps: seq<OtpRow>
    var users: seq<UserRow>
    var nextOtpId: nat
    var nextUserId: nat

    ghost function State(): AuthState
      reads this
    {
      AuthState(otps, users, nextOtpId, nextUserId)
    }

    ghost predicate Valid()
      reads this
    {
      State().Valid()
    }

    constructor ()
      ensures Valid() && State() == Empty
    {
      otps, users, nextOtpId, nextUserId := [], [], 1, 1;
    }

    /** POST /send-otp with the code `generateOTP` drew and whether the mail went out. */
    method SendOtp(email: string, name: string, otp: string, now: int, delivered: bool) returns (reply: Result<string>)
      requires Valid() && IsGeneratedCode(otp)
      modifies this
      ensures Valid()
      ensures Step(State(), reply) == Auth.SendOtp(old(State()), email, name, otp, now, delivered)
    {
      var errors := SendOtpErrors(name);
      if errors != [] {
        return Err(Invalid(errors));
      }
      if FindByEmail(users, email).Some? {
        return Err(UserExistsWithEmail);
      }
      var expiresAt := now + OtpLifetimeMs;
      otps := WithoutEmail(otps, email);
      otps := otps + [OtpRow(nextOtpId, email, otp, expiresAt, false, now)];
      nextOtpId := nextOtpId + 1;
      SendOtpKeepsValid(old(State()), email, name, otp, now, delivered);
      if !delivered {
        return Err(SignupMailFailed);
      }
      return Ok(OtpSent);
    }

    /** POST /verify-otp. */
    method VerifyOtp(email: string, otp: string, now: int) returns (reply: Result<string>)
      requires Valid()
      modifies this
      ensures Valid()
      ensures Step(State(), reply) == Auth.VerifyOtp(old(State()), email, otp, now)
    {
      var errors := VerifyOtpErrors(otp);
      if errors != [] {
        return Err(Invalid(errors));
      }
      var found := Latest(otps, email, otp, OnlyUnverified);
      if found.None? {
        return Err(InvalidOtp);
      }
      var row := found.value;
      if Expired(row, now) {
        return Err(OtpHasExpired);
      }
      otps := MarkVerified(otps, row.id);
      VerifyOtpKeepsValid(old(State()), email, otp, now);
      return Ok(EmailVerified);
    }

    /** POST /signup with the salt `genSalt` drew. */
    method Signup(name: string, email: string, password: string, otp: string, salt: nat, now: int)
      returns (reply: Result<SignedUp>)
      requires Valid()
      modifies this
      ensures Valid()
      ensures Step(State(), reply) == Auth.Signup(old(State()), name, email, password, otp, salt, now)
    {
      var errors := SignupErrors(name, password, otp);
      if errors != [] {
        return Err(Invalid(errors));
      }
      if Latest(otps, email, otp, OnlyVerified).None? {
        return Err(VerifyFirst);
      }
      if FindByEmail(users, email).Some? {
        return Err(UserExists);
      }
      var hashed := HashPassword(password, salt);
      var id := nextUserId;
      users := users + [UserRow(id, Trim(name), email, hashed, true, now, None)];
      nextUserId := nextUserId + 1;
      otps := WithoutEmail(otps, email);
      SignupKeepsValid(old(State()), name, email, password, otp, salt, now);
      return Ok(SignedUp(AccountCreated, PublicUser(id, Trim(name), email)));
    }

    /** POST /login. */
    method Login(email: string, password: string, now: int) returns (reply: Result<Session>)
      requires Valid()
      modifies this
      ensures Valid()
      ensures Step(State(), reply) == Auth.Login(old(State()), email, password, now)
    {
      var errors := LoginErrors(password);
      if errors != [] {
        return Err(Invalid(errors));
      }
      var found := FindByEmail(users, email);
      if found.None? {
        return Err(InvalidCredentials);
      }
      var user := found.value;
      if !Matches(password, user.password) {
        return Err(InvalidCredentials);
      }
      users := TouchLogin(users, user.id, now);
      LoginKeepsValid(old(State()), email, password, now);
      var token := IssueToken(user.id, user.email, now);
      return Ok(Session(token, PublicUser(user.id, user.name, user.email)));
    }

    /** GET /me for the account id of a verified token; it changes nothing. */
    method Me(userId: nat) returns (reply: Result<Profile>)
      ensures reply == Auth.Me(State(), userId)
    {
      var found := FindById(users, userId);
      if found.None? {
        return Err(UserNotFound);
      }
      var u := found.value;
      return Ok(Profile(u.id, u.name, u.email, u.createdAt, u.lastLogin));
    }

    /** POST /forgot-password with the code `generateOTP` drew and whether the mail went out. */
    method ForgotPassword(email: string, otp: string, now: int, delivered: bool) returns (reply: Result<string>)
      requires Valid() && IsGeneratedCode(otp)
      modifies this
      ensures Valid()
      ensures Step(State(), reply) == Auth.ForgotPassword(old(State()), email, otp, now, delivered)
    {
      if FindByEmail(users, email).None? {
        return Err(NoAccountWithEmail);
      }
      var expiresAt := now + OtpLifetimeMs;
      otps := WithoutEmail(otps, email);
      otps := otps + [OtpRow(nextOtpId, email, otp, expiresAt, false, now)];
      nextOtpId := nextOtpId + 1;
      ForgotPasswordKeepsValid(old(State()), email, otp, now, delivered);
      if !delivered {
        return Err(ResetMailFailed);
      }
      return Ok(OtpSent);
    }

    /** POST /reset-password with the salt `genSalt` drew. */
    method ResetPassword(email: string, otp: string, newPassword: string, salt: nat, now: int)
      returns (reply: Result<string>)
      requires Valid()
      modifies this
      ensures Valid()
      ensures Step(State(), reply) == Auth.ResetPassword(old(State()), email, otp, newPassword, salt, now)
    {
      var errors := ResetPasswordErrors(otp, newPassword);
      if errors != [] {
        return Err(Invalid(errors));
      }
      var found := Latest(otps, email, otp, AnyFlag);
      if found.None? {
        return Err(InvalidOtp);
      }
      if Expired(found.value, now) {
        return Err(OtpHasExpired);
      }
      if FindByEmail(users, email).None? {
        return Err(UserNotFound);
      }
      var hashed := HashPassword(newPassword, salt);
      users := SetPassword(users, email, hashed);
      otps := WithoutEmail(otps, email);
      ResetPasswordKeepsValid(old(State()), email, otp, newPassword, salt, now);
      return Ok(PasswordWasReset);
    }
  }
}
