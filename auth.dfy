/** The OTP-gated account workflow of the auth routes, as transitions on the
    two tables. Each handler is one atomic step: it takes the tables, the
    request and what the collaborators answered (the clock, the generated
    code, the bcrypt salt, whether the mail went out) and gives the new tables
    and the reply. */
module Auth {
  import opened Outcomes
  import opened Validation
  import opened Credentials
  import opened OtpTable
  import opened UserTable

  datatype AuthState = AuthState(otps: seq<OtpRow>, users: seq<UserRow>, nextOtpId: nat, nextUserId: nat)
  {
    ghost predicate Valid() {
      OtpTable.Valid(otps, nextOtpId) && UserTable.Valid(users, nextUserId)
    }
  }

  /** Both tables empty; AUTO_INCREMENT hands out 1 first. */
  const Empty := AuthState([], [], 1, 1)

  /** The tables after a handler, and its reply. */
  datatype Step<+T> = Step(state: AuthState, reply: Result<T>)

  /** The account fields a reply may show: never the password hash. */
  datatype PublicUser = PublicUser(id: nat, name: string, email: string)

  /** The body of a successful signup. */
  datatype SignedUp = SignedUp(message: string, user: PublicUser)

  /** The body of a successful login. */
  datatype Session = Session(token: Token, user: PublicUser)

  /** The body of `/me`: `id, name, email, created_at, last_login`. */
  datatype Profile = Profile(id: nat, name: string, email: string, createdAt: int, lastLogin: Option<int>)

  // Replies, with the status codes and texts of the handlers

  const OtpSent := "OTP sent successfully to your email"
  const EmailVerified := "Email verified successfully"
  const AccountCreated := "Account created successfully. Please login."
  const PasswordWasReset := "Password reset successfully. Please login with your new password."

  const UserExistsWithEmail := Refused(400, "User already exists with this email")
  const SignupMailFailed := Refused(500, "Failed to send OTP email. Please check email configuration.")
  const InvalidOtp := Refused(400, "Invalid OTP")
  const OtpHasExpired := Refused(400, "OTP has expired. Please request a new one.")
  const VerifyFirst := Refused(400, "Please verify your email with OTP first")
  const UserExists := Refused(400, "User already exists")
  const InvalidCredentials := Refused(400, "Invalid credentials")
  const UserNotFound := Refused(404, "User not found")
  const NoAccountWithEmail := Refused(404, "No account found with this email")
  const ResetMailFailed := Refused(500, "Failed to send OTP email. Please try again.")

  /** The row send-otp and forgot-password insert. */
  function IssuedRow(s: AuthState, email: string, otp: string, now: int): OtpRow {
    OtpRow(s.nextOtpId, email, otp, now + OtpLifetimeMs, false, now)
  }

  /** The tables once the prior codes of `email` are deleted and the new one inserted. */
  function Issue(s: AuthState, email: string, otp: string, now: int): AuthState {
    s.(otps := Supersede(s.otps, IssuedRow(s, email, otp, now)), nextOtpId := s.nextOtpId + 1)
  }

  /** POST /send-otp. The row stays even when the mail fails. */
  function SendOtp(s: AuthState, email: string, name: string, otp: string, now: int, delivered: bool): Step<string> {
    var errors := SendOtpErrors(name);
    if errors != [] then Step(s, Err(Invalid(errors)))
    else if FindByEmail(s.users, email).Some? then Step(s, Err(UserExistsWithEmail))
    else
      var s' := Issue(s, email, otp, now);
      if !delivered then Step(s', Err(SignupMailFailed)) else Step(s', Ok(OtpSent))
  }

  /** POST /verify-otp. */
  function VerifyOtp(s: AuthState, email: string, otp: string, now: int): Step<string> {
    var errors := VerifyOtpErrors(otp);
    if errors != [] then Step(s, Err(Invalid(errors)))
    else match Latest(s.otps, email, otp, OnlyUnverified)
      case None => Step(s, Err(InvalidOtp))
      case Some(row) =>
        if Expired(row, now) then Step(s, Err(OtpHasExpired))
        else Step(s.(otps := MarkVerified(s.otps, row.id)), Ok(EmailVerified))
  }

  /** The account signup inserts: the trimmed name, the bcrypt digest, and the
      email marked verified. */
  function NewAccount(s: AuthState, name: string, email: string, password: string, salt: nat, now: int): UserRow {
    UserRow(s.nextUserId, Trim(name), email, HashPassword(password, salt), true, now, None)
  }

  /** POST /signup. The code must have been verified; its expiry is not looked at again. */
  function Signup(s: AuthState, name: string, email: string, password: string, otp: string, salt: nat, now: int)
    : Step<SignedUp>
  {
    var errors := SignupErrors(name, password, otp);
    if errors != [] then Step(s, Err(Invalid(errors)))
    else if Latest(s.otps, email, otp, OnlyVerified).None? then Step(s, Err(VerifyFirst))
    else if FindByEmail(s.users, email).Some? then Step(s, Err(UserExists))
    else
      var u := NewAccount(s, name, email, password, salt, now);
      var s' := s.(users := s.users + [u], nextUserId := s.nextUserId + 1,
                   otps := WithoutEmail(s.otps, email));
      Step(s', Ok(SignedUp(AccountCreated, PublicUser(u.id, u.name, u.email))))
  }

  /** POST /login. Both refusals carry the same reply. */
  function Login(s: AuthState, email: string, password: string, now: int): Step<Session> {
    var errors := LoginErrors(password);
    if errors != [] then Step(s, Err(Invalid(errors)))
    else match FindByEmail(s.users, email)
      case None => Step(s, Err(InvalidCredentials))
      case Some(u) =>
        if !Matches(password, u.password) then Step(s, Err(InvalidCredentials))
        else
          var s' := s.(users := TouchLogin(s.users, u.id, now));
          Step(s', Ok(Session(IssueToken(u.id, u.email, now), PublicUser(u.id, u.name, u.email))))
  }

  /** GET /me for the account id carried by a verified token. */
  function Me(s: AuthState, userId: nat): (r: Result<Profile>)
    ensures r.Ok? ==> (exists u :: u in s.users && u.id == userId &&
                         r.value == Profile(u.id, u.name, u.email, u.createdAt, u.lastLogin))
    ensures r.Err? <==> forall u :: u in s.users ==> u.id != userId
    ensures r.Err? ==> r.failure == UserNotFound
  {
    match FindById(s.users, userId)
    case None => Err(UserNotFound)
    case Some(u) => Ok(Profile(u.id, u.name, u.email, u.createdAt, u.lastLogin))
  }

  /** POST /forgot-password. The row stays even when the mail fails. */
  function ForgotPassword(s: AuthState, email: string, otp: string, now: int, delivered: bool): Step<string> {
    if FindByEmail(s.users, email).None? then Step(s, Err(NoAccountWithEmail))
    else
      var s' := Issue(s, email, otp, now);
      if !delivered then Step(s', Err(ResetMailFailed)) else Step(s', Ok(OtpSent))
  }

  /** POST /reset-password. The code is looked up whatever its `verified` flag. */
  function ResetPassword(s: AuthState, email: string, otp: string, newPassword: string, salt: nat, now: int)
    : Step<string>
  {
    var errors := ResetPasswordErrors(otp, newPassword);
    if errors != [] then Step(s, Err(Invalid(errors)))
    else match Latest(s.otps, email, otp, AnyFlag)
      case None => Step(s, Err(InvalidOtp))
      case Some(row) =>
        if Expired(row, now) then Step(s, Err(OtpHasExpired))
        else if FindByEmail(s.users, email).None? then Step(s, Err(UserNotFound))
        else
          var s' := s.(users := SetPassword(s.users, email, HashPassword(newPassword, salt)),
                       otps := WithoutEmail(s.otps, email));
          Step(s', Ok(PasswordWasReset))
  }

  // Every handler keeps the tables valid

  lemma IssueKeepsValid(s: AuthState, email: string, otp: string, now: int)
    requires s.Valid() && IsGeneratedCode(otp)
    ensures Issue(s, email, otp, now).Valid()
  {
    SupersedeKeepsValid(s.otps, s.nextOtpId, IssuedRow(s, email, otp, now));
  }

  lemma SendOtpKeepsValid(s: AuthState, email: string, name: string, otp: string, now: int, delivered: bool)
    requires s.Valid() && IsGeneratedCode(otp)
    ensures SendOtp(s, email, name, otp, now, delivered).state.Valid()
  {
    IssueKeepsValid(s, email, otp, now);
  }

  lemma VerifyOtpKeepsValid(s: AuthState, email: string, otp: string, now: int)
    requires s.Valid()
    ensures VerifyOtp(s, email, otp, now).state.Valid()
  {
    var found := Latest(s.otps, email, otp, OnlyUnverified);
    if VerifyOtpErrors(otp) == [] && found.Some? {
      MarkVerifiedKeepsValid(s.otps, s.nextOtpId, found.value.id);
    }
  }

  lemma SignupKeepsValid(s: AuthState, name: string, email: string, password: string, otp: string, salt: nat, now: int)
    requires s.Valid()
    ensures Signup(s, name, email, password, otp, salt, now).state.Valid()
  {
    var step := Signup(s, name, email, password, otp, salt, now);
    if step.reply.Ok? {
      var u := NewAccount(s, name, email, password, salt, now);
      assert step.state == s.(users := s.users + [u], nextUserId := s.nextUserId + 1,
                              otps := WithoutEmail(s.otps, email));
      WithoutEmailKeepsValid(s.otps, s.nextOtpId, email);
      InsertKeepsValid(s.users, s.nextUserId, u);
    } else {
      assert step.state == s;
    }
  }

  lemma LoginKeepsValid(s: AuthState, email: string, password: string, now: int)
    requires s.Valid()
    ensures Login(s, email, password, now).state.Valid()
  {
    var found := FindByEmail(s.users, email);
    if found.Some? {
      SameKeysKeepValid(s.users, TouchLogin(s.users, found.value.id, now), s.nextUserId);
    }
  }

  lemma ForgotPasswordKeepsValid(s: AuthState, email: string, otp: string, now: int, delivered: bool)
    requires s.Valid() && IsGeneratedCode(otp)
    ensures ForgotPassword(s, email, otp, now, delivered).state.Valid()
  {
    IssueKeepsValid(s, email, otp, now);
  }

  lemma ResetPasswordKeepsValid(s: AuthState, email: string, otp: string, newPassword: string, salt: nat, now: int)
    requires s.Valid()
    ensures ResetPassword(s, email, otp, newPassword, salt, now).state.Valid()
  {
    WithoutEmailKeepsValid(s.otps, s.nextOtpId, email);
    SameKeysKeepValid(s.users, SetPassword(s.users, email, HashPassword(newPassword, salt)), s.nextUserId);
  }
}
