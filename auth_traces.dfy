/** Sequences of requests to the auth routes, each handled atomically in
    turn, and what holds of every state such a sequence reaches. */
module AuthTraces {
  import opened Outcomes
  import opened Validation
  import opened OtpTable
  import opened UserTable
  import opened Auth

  /** One request to one of the auth routes, with what the collaborators
      answered while it was handled. */
  datatype Request =
    | SendOtpRequest(email: string, name: string, otp: string, now: int, delivered: bool)
    | VerifyOtpRequest(email: string, otp: string, now: int)
    | SignupRequest(name: string, email: string, password: string, otp: string, salt: nat, now: int)
    | LoginRequest(email: string, password: string, now: int)
    | MeRequest(userId: nat)
    | ForgotPasswordRequest(email: string, otp: string, now: int, delivered: bool)
    | ResetPasswordRequest(email: string, otp: string, newPassword: string, salt: nat, now: int)

  /** The tables after the request is handled. */
  function Apply(s: AuthState, r: Request): AuthState {
    match r
    case SendOtpRequest(email, name, otp, now, delivered) => SendOtp(s, email, name, otp, now, delivered).state
    case VerifyOtpRequest(email, otp, now) => VerifyOtp(s, email, otp, now).state
    case SignupRequest(name, email, password, otp, salt, now) => Signup(s, name, email, password, otp, salt, now).state
    case LoginRequest(email, password, now) => Login(s, email, password, now).state
    case MeRequest(_) => s
    case ForgotPasswordRequest(email, otp, now, delivered) => ForgotPassword(s, email, otp, now, delivered).state
    case ResetPasswordRequest(email, otp, newPassword, salt, now) =>
      ResetPassword(s, email, otp, newPassword, salt, now).state
  }

  /** Whether the handler answered with success. */
  predicate Accepted(s: AuthState, r: Request) {
    match r
    case SendOtpRequest(email, name, otp, now, delivered) => SendOtp(s, email, name, otp, now, delivered).reply.Ok?
    case VerifyOtpRequest(email, otp, now) => VerifyOtp(s, email, otp, now).reply.Ok?
    case SignupRequest(name, email, password, otp, salt, now) => Signup(s, name, email, password, otp, salt, now).reply.Ok?
    case LoginRequest(email, password, now) => Login(s, email, password, now).reply.Ok?
    case MeRequest(userId) => Me(s, userId).Ok?
    case ForgotPasswordRequest(email, otp, now, delivered) => ForgotPassword(s, email, otp, now, delivered).reply.Ok?
    case ResetPasswordRequest(email, otp, newPassword, salt, now) =>
      ResetPassword(s, email, otp, newPassword, salt, now).reply.Ok?
  }

  /** The tables after handling the requests one after the other. */
  function Run(s: AuthState, trace: seq<Request>): AuthState
    decreases |trace|
  {
    if trace == [] then s
    else Apply(Run(s, trace[..|trace| - 1]), trace[|trace| - 1])
  }

  /** Every code that send-otp and forgot-password store came from `generateOTP`. */
  ghost predicate CodesFromGenerator(trace: seq<Request>) {
    forall i :: 0 <= i < |trace| && (trace[i].SendOtpRequest? || trace[i].ForgotPasswordRequest?) ==>
      IsGeneratedCode(trace[i].otp)
  }

  ghost predicate NoVerifiedCodes(s: AuthState) {
    forall x :: x in s.otps ==> !x.verified
  }

  /** Some request of the trace was a verify-otp for this email and code that
      succeeded in the state it met. */
  ghost predicate VerifiedEarlier(s0: AuthState, trace: seq<Request>, email: string, otp: string) {
    exists i :: 0 <= i < |trace| && trace[i].VerifyOtpRequest? && trace[i].email == email &&
      trace[i].otp == otp && Accepted(Run(s0, trace[..i]), trace[i])
  }

  lemma ApplyKeepsValid(s: AuthState, r: Request)
    requires s.Valid()
    requires (r.SendOtpRequest? || r.ForgotPasswordRequest?) ==> IsGeneratedCode(r.otp)
    ensures Apply(s, r).Valid()
  {
    match r
    case SendOtpRequest(email, name, otp, now, delivered) => SendOtpKeepsValid(s, email, name, otp, now, delivered);
    case VerifyOtpRequest(email, otp, now) => VerifyOtpKeepsValid(s, email, otp, now);
    case SignupRequest(name, email, password, otp, salt, now) =>
      SignupKeepsValid(s, name, email, password, otp, salt, now);
    case LoginRequest(email, password, now) => LoginKeepsValid(s, email, password, now);
    case MeRequest(_) =>
    case ForgotPasswordRequest(email, otp, now, delivered) => ForgotPasswordKeepsValid(s, email, otp, now, delivered);
    case ResetPasswordRequest(email, otp, newPassword, salt, now) =>
      ResetPasswordKeepsValid(s, email, otp, newPassword, salt, now);
  }

  /** Every state a trace reaches from valid tables is valid. */
  lemma {:induction false} RunKeepsValid(s0: AuthState, trace: seq<Request>)
    requires s0.Valid() && CodesFromGenerator(trace)
    ensures Run(s0, trace).Valid()
    decreases |trace|
  {
    if trace != [] {
      var prefix := trace[..|trace| - 1];
      RunKeepsValid(s0, prefix);
      ApplyKeepsValid(Run(s0, prefix), trace[|trace| - 1]);
    }
  }

  /** Only an accepted verify-otp turns a row verified: every verified row
      after a request was there before it, or is the row that request
      verified. */
  lemma ApplyVerifiesOnlyOnVerifyOtp(s: AuthState, r: Request)
    requires s.Valid()
    ensures forall x :: x in Apply(s, r).otps && x.verified ==>
      x in s.otps || (r.VerifyOtpRequest? && Accepted(s, r) && x.email == r.email && x.otp == r.otp)
  {
    match r
    case SendOtpRequest(email, name, otp, now, delivered) =>
      SendOtpAddsNoVerifiedRow(s, email, name, otp, now, delivered);
    case VerifyOtpRequest(email, otp, now) =>
      VerifyOtpVerifiesItsRow(s, email, otp, now);
    case SignupRequest(name, email, password, otp, salt, now) =>
      SignupAddsNoVerifiedRow(s, name, email, password, otp, salt, now);
    case LoginRequest(email, password, now) =>
      assert Apply(s, r).otps == s.otps;
    case MeRequest(_) =>
    case ForgotPasswordRequest(email, otp, now, delivered) =>
      ForgotPasswordAddsNoVerifiedRow(s, email, otp, now, delivered);
    case ResetPasswordRequest(email, otp, newPassword, salt, now) =>
      ResetPasswordAddsNoVerifiedRow(s, email, otp, newPassword, salt, now);
  }

  /** Every verified row of `after` was already in `before`. */
  ghost predicate AddsNoVerifiedRow(before: seq<OtpRow>, after: seq<OtpRow>) {
    forall x :: x in after && x.verified ==> x in before
  }

  lemma IssueAddsNoVerifiedRow(s: AuthState, email: string, otp: string, now: int)
    ensures AddsNoVerifiedRow(s.otps, Issue(s, email, otp, now).otps)
  {
    var issued := IssuedRow(s, email, otp, now);
    assert Issue(s, email, otp, now).otps == WithoutEmail(s.otps, email) + [issued];
    forall x | x in WithoutEmail(s.otps, email) + [issued] && x.verified
      ensures x in s.otps
    {
      assert x != issued;
    }
  }

  lemma SendOtpAddsNoVerifiedRow(s: AuthState, email: string, name: string, otp: string, now: int, delivered: bool)
    ensures AddsNoVerifiedRow(s.otps, SendOtp(s, email, name, otp, now, delivered).state.otps)
  {
    if SendOtpErrors(name) == [] && FindByEmail(s.users, email).None? {
      IssueAddsNoVerifiedRow(s, email, otp, now);
    }
  }

  lemma ForgotPasswordAddsNoVerifiedRow(s: AuthState, email: string, otp: string, now: int, delivered: bool)
    ensures AddsNoVerifiedRow(s.otps, ForgotPassword(s, email, otp, now, delivered).state.otps)
  {
    if FindByEmail(s.users, email).Some? {
      IssueAddsNoVerifiedRow(s, email, otp, now);
    }
  }

  lemma SignupAddsNoVerifiedRow(s: AuthState, name: string, email: string, password: string, otp: string,
                                salt: nat, now: int)
    ensures AddsNoVerifiedRow(s.otps, Signup(s, name, email, password, otp, salt, now).state.otps)
  {
    var after := Signup(s, name, email, password, otp, salt, now).state.otps;
    if SignupErrors(name, password, otp) == [] && Latest(s.otps, email, otp, OnlyVerified).Some?
       && FindByEmail(s.users, email).None? {
      assert after == WithoutEmail(s.otps, email);
    } else {
      assert after == s.otps;
    }
  }

  lemma ResetPasswordAddsNoVerifiedRow(s: AuthState, email: string, otp: string, newPassword: string,
                                       salt: nat, now: int)
    ensures AddsNoVerifiedRow(s.otps, ResetPassword(s, email, otp, newPassword, salt, now).state.otps)
  {
    var after := ResetPassword(s, email, otp, newPassword, salt, now).state.otps;
    var found := Latest(s.otps, email, otp, AnyFlag);
    if ResetPasswordErrors(otp, newPassword) == [] && found.Some? && !Expired(found.value, now)
       && FindByEmail(s.users, email).Some? {
      assert after == WithoutEmail(s.otps, email);
    } else {
      assert after == s.otps;
    }
  }

  /** A row of `rows[k := v]` is a row of `rows` or `v`. */
  lemma InUpdated(rows: seq<OtpRow>, k: nat, v: OtpRow, x: OtpRow)
    requires k < |rows| && x in rows[k := v]
    ensures x in rows || x == v
  {
    var i :| 0 <= i < |rows| && rows[k := v][i] == x;
    if i != k {
      assert rows[i] == x;
    }
  }

  /** The only row verify-otp can turn verified is the one it looked up. */
  lemma VerifyOtpVerifiesItsRow(s: AuthState, email: string, otp: string, now: int)
    requires s.Valid()
    ensures var step := VerifyOtp(s, email, otp, now);
      forall x :: x in step.state.otps && x.verified ==>
        x in s.otps || (step.reply.Ok? && x.email == email && x.otp == otp)
  {
    var step := VerifyOtp(s, email, otp, now);
    var found := Latest(s.otps, email, otp, OnlyUnverified);
    if VerifyOtpErrors(otp) == [] && found.Some? && !Expired(found.value, now) {
      var row := found.value;
      var k :| 0 <= k < |s.otps| && s.otps[k] == row;
      MarkVerifiedFlipsOne(s.otps, k);
      assert step.state.otps == s.otps[k := row.(verified := true)];
      assert step.reply.Ok?;
      forall x | x in step.state.otps && x.verified
        ensures x in s.otps || (x.email == email && x.otp == otp)
      {
        InUpdated(s.otps, k, row.(verified := true), x);
      }
    } else {
      assert step.state == s;
    }
  }

  /** Each verified row of a reached state was verified by an accepted
      verify-otp for its email and code earlier in the trace. */
  lemma {:induction false} VerifiedRowsWereVerified(s0: AuthState, trace: seq<Request>)
    requires s0.Valid() && NoVerifiedCodes(s0) && CodesFromGenerator(trace)
    ensures forall x :: x in Run(s0, trace).otps && x.verified ==> VerifiedEarlier(s0, trace, x.email, x.otp)
    decreases |trace|
  {
    if trace != [] {
      var n := |trace| - 1;
      var prefix, last := trace[..n], trace[n];
      assert trace == prefix + [last];
      assert CodesFromGenerator(prefix) by {
        forall i | 0 <= i < |prefix| ensures prefix[i] == trace[i] { }
      }
      VerifiedRowsWereVerified(s0, prefix);
      RunKeepsValid(s0, prefix);
      VerifiedRowsStep(s0, prefix, last);
    }
  }

  /** One more request keeps every verified row accounted for. */
  lemma VerifiedRowsStep(s0: AuthState, prefix: seq<Request>, last: Request)
    requires Run(s0, prefix).Valid()
    requires forall x :: x in Run(s0, prefix).otps && x.verified ==> VerifiedEarlier(s0, prefix, x.email, x.otp)
    ensures forall x :: x in Run(s0, prefix + [last]).otps && x.verified ==>
      VerifiedEarlier(s0, prefix + [last], x.email, x.otp)
  {
    var s := Run(s0, prefix);
    var trace := prefix + [last];
    assert trace[..|trace| - 1] == prefix;
    assert Run(s0, trace) == Apply(s, last);
    ApplyVerifiesOnlyOnVerifyOtp(s, last);
    forall x | x in Apply(s, last).otps && x.verified
      ensures VerifiedEarlier(s0, trace, x.email, x.otp)
    {
      if x in s.otps {
        VerifiedEarlierExtends(s0, prefix, last, x.email, x.otp);
      } else {
        assert trace[..|prefix|] == prefix && trace[|prefix|] == last;
      }
    }
  }

  /** A verify-otp that was accepted earlier stays earlier in a longer trace. */
  lemma VerifiedEarlierExtends(s0: AuthState, prefix: seq<Request>, last: Request, email: string, otp: string)
    requires VerifiedEarlier(s0, prefix, email, otp)
    ensures VerifiedEarlier(s0, prefix + [last], email, otp)
  {
    var i :| 0 <= i < |prefix| && prefix[i].VerifyOtpRequest? && prefix[i].email == email &&
      prefix[i].otp == otp && Accepted(Run(s0, prefix[..i]), prefix[i]);
    assert (prefix + [last])[..i] == prefix[..i];
    assert (prefix + [last])[i] == prefix[i];
  }

  /** Signup only after verify: from tables with no verified code, signup
      succeeds only if an earlier verify-otp for that email and code
      succeeded. */
  lemma SignupOnlyAfterVerify(s0: AuthState, trace: seq<Request>,
                              name: string, email: string, password: string, otp: string, salt: nat, now: int)
    requires s0.Valid() && NoVerifiedCodes(s0) && CodesFromGenerator(trace)
    requires Signup(Run(s0, trace), name, email, password, otp, salt, now).reply.Ok?
    ensures VerifiedEarlier(s0, trace, email, otp)
  {
    VerifiedRowsWereVerified(s0, trace);
  }
}
