/** The user controller: registration, sign-in, and the three-step password
    reset (request an OTP, verify it, set a new password) over the user
    collection's OTP fields. Hashing is the abstract `Digest`, which keeps its
    secret, so comparing a secret with a digest is an exact test; the access
    token is the abstract `Token`. */
module UserAccounts {
  import opened Wrappers
  import Text
  import Credentials

  /** A bcrypt hash of `secret` made with `salt`. */
  datatype Digest = Digest(salt: nat, secret: string)

  /** The hash comparison: does `secret` hash to `d`? */
  predicate Matches(secret: string, d: Digest) {
    d.secret == secret
  }

  /** One stored user; the e-mail address is the key of the collection. */
  datatype User = User(
    name: string,
    password: Digest,
    role: string,
    otp: Option<Digest>,
    otpExpiresAt: Option<int>,
    otpVerified: bool)

  /** The user collection, keyed by e-mail address (the schema makes it unique). */
  type Users = map<string, User>

  /** The key an address is stored and looked up under: the schema's
      `lowercase` setter applies to saved documents and to query filters
      alike, so every lookup ignores letter case. */
  function AddressKey(email: string): (k: string)
    ensures |k| == |email|
    ensures forall i :: 0 <= i < |k| ==> k[i] == Text.LowerChar(email[i])
  {
    Text.ToLower(email)
  }

  datatype AccountError =
    | EmailAlreadyRegistered
    | NotCreated          // the hash or the schema's `required` check threw; no reply
    | EmailRequired
    | InvalidEmail
    | PasswordPolicy
    | EmailNotRegistered
    | InvalidPassword
    | CompareFailed       // the hash comparison threw on a missing OTP; no reply
    | OtpExpired
    | WrongOtp
    | EmailAndPasswordRequired
    | OtpNotVerified

  /** JavaScript truthiness of an optional string field of a request body. */
  predicate Given(s: Option<string>) {
    s.Some? && s.value != ""
  }

  /** Registration. A registered address is refused before anything else; a
      missing password (the hash throws) or an empty required field (the
      schema throws) creates nothing. A new user has no OTP and is not
      verified. */
  function CreateUser(users: Users, name: string, email: string, password: Option<string>, role: string, salt: nat)
    : (r: (Users, Result<User, AccountError>))
    ensures AddressKey(email) in users ==> r == (users, Err(EmailAlreadyRegistered))
    ensures r.1 == Err(EmailAlreadyRegistered) <==> AddressKey(email) in users
    ensures r.1 == Err(NotCreated) <==>
      AddressKey(email) !in users && (password.None? || name == "" || email == "" || role == "")
    ensures r.1.Err? ==> r.0 == users
    ensures r.1.Ok? <==> AddressKey(email) !in users && password.Some? && name != "" && email != "" && role != ""
    ensures r.1.Ok? ==>
      && r.0 == users[AddressKey(email) := r.1.value]
      && Matches(password.value, r.1.value.password)
      && r.1.value.otp.None? && r.1.value.otpExpiresAt.None? && !r.1.value.otpVerified
  {
    var key := AddressKey(email);
    if key in users then (users, Err(EmailAlreadyRegistered))
    else if password.None? || name == "" || email == "" || role == "" then (users, Err(NotCreated))
    else
      var u := User(name, Digest(salt, password.value), role, None, None, false);
      (users[key := u], Ok(u))
  }

  /** The signed access token: the user and the role it grants. */
  datatype Token = Token(email: string, role: string)

  datatype Session = Session(accessToken: Token, role: string, name: string)

  /** Sign-in. Both inputs are trimmed; then the address format, the password
      policy, registration (in any letter case) and the password hash are
      checked in that order, the first failure deciding the error. Sign-in
      never changes the users. */
  function LoginUser(users: Users, email: string, password: string): (r: Result<Session, AccountError>)
    ensures r == Err(InvalidEmail) <==> !Credentials.ValidEmail(Text.Trim(email))
    ensures r == Err(PasswordPolicy) <==>
      Credentials.ValidEmail(Text.Trim(email)) && !Credentials.ValidPassword(Text.Trim(password))
    ensures r == Err(EmailNotRegistered) <==>
      Credentials.ValidEmail(Text.Trim(email)) && Credentials.ValidPassword(Text.Trim(password))
      && AddressKey(Text.Trim(email)) !in users
    ensures r.Ok? <==>
      && Credentials.ValidEmail(Text.Trim(email))
      && Credentials.ValidPassword(Text.Trim(password))
      && AddressKey(Text.Trim(email)) in users
      && Matches(Text.Trim(password), users[AddressKey(Text.Trim(email))].password)
    ensures r.Err? ==> r.error in {InvalidEmail, PasswordPolicy, EmailNotRegistered, InvalidPassword}
    ensures r.Ok? ==>
      var u := users[AddressKey(Text.Trim(email))];
      r.value == Session(Token(AddressKey(Text.Trim(email)), u.role), u.role, u.name)
  {
    var email := Text.Trim(email);
    var password := Text.Trim(password);
    if !Credentials.ValidEmail(email) then Err(InvalidEmail)
    else if !Credentials.ValidPassword(password) then Err(PasswordPolicy)
    else if AddressKey(email) !in users then Err(EmailNotRegistered)
    else if Matches(password, users[AddressKey(email)].password) then
      var u := users[AddressKey(email)];
      Ok(Session(Token(AddressKey(email), u.role), u.role, u.name))
    else Err(InvalidPassword)
  }

  /** An OTP is valid for five minutes. */
  const OtpLifetimeMs: int := 5 * 60 * 1000

  /** The OTP drawn for a random number `r` in [0, 1). */
  function GenerateOtp(r: real): (n: nat)
    requires 0.0 <= r < 1.0
    ensures 1000 <= n <= 9999
  {
    (1000.0 + r * 9000.0).Floor
  }

  /** Every four-digit OTP is drawn for some random number. */
  lemma EveryFourDigitOtpIsDrawn(n: nat)
    requires 1000 <= n <= 9999
    ensures exists r: real :: 0.0 <= r < 1.0 && GenerateOtp(r) == n
  {
    var r := (n - 1000) as real / 9000.0;
    assert 1000.0 + r * 9000.0 == n as real;
    assert GenerateOtp(r) == n;
  }

  function DigitChar(d: nat): (c: char)
    requires d < 10
    ensures '0' <= c <= '9'
  {
    ('0' as int + d) as char
  }

  /** The decimal text of `n`, without leading zeros. */
  function DecimalString(n: nat): (s: string)
    ensures |s| > 0 && forall i :: 0 <= i < |s| ==> '0' <= s[i] <= '9'
    ensures n >= 10 ==> s[0] != '0'
  {
    if n < 10 then [DigitChar(n)] else DecimalString(n / 10) + [DigitChar(n % 10)]
  }

  /** The number a string of decimal digits denotes. */
  function DecimalValue(s: string): nat
    requires forall i :: 0 <= i < |s| ==> '0' <= s[i] <= '9'
  {
    if s == [] then 0 else 10 * DecimalValue(s[..|s| - 1]) + (s[|s| - 1] as int - '0' as int)
  }

  /** Reading the decimal text of a number gives the number back. */
  lemma {:induction false} DecimalRoundTrip(n: nat)
    ensures DecimalValue(DecimalString(n)) == n
  {
    var s := DecimalString(n);
    if n >= 10 {
      DecimalRoundTrip(n / 10);
      assert s[..|s| - 1] == DecimalString(n / 10);
    }
  }

  /** A four-digit OTP's text is four digits long. */
  lemma {:induction false} FourDigitText(n: nat)
    requires 1000 <= n <= 9999
    ensures |DecimalString(n)| == 4
  {
    assert DecimalString(n / 1000) == [DigitChar(n / 1000)];
    assert |DecimalString(n / 100)| == 2;
    assert |DecimalString(n / 10)| == 3;
  }

  /** The OTP mail: the code in clear, to the address that requested it. */
  datatype OtpMail = OtpMail(to: string, name: string, otp: string)

  /** The first step of a reset at time `now` with random draw `r`. An absent
      or empty address, a malformed one, or an unknown one is refused with
      the users unchanged; otherwise the user's hashed OTP and its expiry
      five minutes ahead are stored, nothing else changes, and the OTP is
      mailed. Rendering and sending the mail are taken to succeed. */
  function ForgotPassword(users: Users, email: Option<string>, r: real, salt: nat, now: int)
    : (res: (Users, Result<OtpMail, AccountError>))
    requires 0.0 <= r < 1.0
    ensures res.1.Err? ==> res.0 == users
    ensures res.1 == Err(EmailRequired) <==> !Given(email)
    ensures res.1 == Err(InvalidEmail) <==> Given(email) && !Credentials.ValidEmail(email.value)
    ensures res.1 == Err(EmailNotRegistered) <==>
      Given(email) && Credentials.ValidEmail(email.value) && AddressKey(email.value) !in users
    ensures res.1.Ok? ==>
      var u := users[AddressKey(email.value)];
      var otp := res.1.value.otp;
      && res.1.value == OtpMail(email.value, u.name, otp)
      && |otp| == 4 && (forall i :: 0 <= i < |otp| ==> '0' <= otp[i] <= '9')
      && 1000 <= DecimalValue(otp) <= 9999
      && res.0 == users[AddressKey(email.value) := u.(otp := Some(Digest(salt, otp)), otpExpiresAt := Some(now + OtpLifetimeMs))]
  {
    if !Given(email) then (users, Err(EmailRequired))
    else if !Credentials.ValidEmail(email.value) then (users, Err(InvalidEmail))
    else if AddressKey(email.value) !in users then (users, Err(EmailNotRegistered))
    else
      var n := GenerateOtp(r);
      var otp := DecimalString(n);
      DecimalRoundTrip(n);
      FourDigitText(n);
      var u := users[AddressKey(email.value)];
      var u' := u.(otp := Some(Digest(salt, otp)), otpExpiresAt := Some(now + OtpLifetimeMs));
      (users[AddressKey(email.value) := u'], Ok(OtpMail(email.value, u.name, otp)))
  }

  /** The second step at time `now`. With a missing user or stored OTP, or no
      OTP given, the comparison throws. A matching OTP marks the user verified
      while `now` is at or before the expiry and is reported expired after
      it; anything else is a wrong OTP. Only a successful verification
      changes the users, and it changes only the flag. */
  function VerifyOtp(users: Users, email: Option<string>, otp: Option<string>, now: int)
    : (res: (Users, Result<(), AccountError>))
    ensures res.1.Err? ==> res.0 == users
    ensures res.1 == Err(EmailRequired) <==> !Given(email)
    ensures res.1 == Err(CompareFailed) <==>
      && Given(email)
      && (AddressKey(email.value) !in users || otp.None? || users[AddressKey(email.value)].otp.None?)
    ensures res.1 == Err(WrongOtp) <==>
      && Given(email) && AddressKey(email.value) in users && otp.Some?
      && users[AddressKey(email.value)].otp.Some?
      && !Matches(otp.value, users[AddressKey(email.value)].otp.value)
    ensures res.1.Ok? <==>
      && Given(email) && AddressKey(email.value) in users && otp.Some?
      && users[AddressKey(email.value)].otp.Some?
      && Matches(otp.value, users[AddressKey(email.value)].otp.value)
      && users[AddressKey(email.value)].otpExpiresAt.Some? && now <= users[AddressKey(email.value)].otpExpiresAt.value
    ensures res.1.Ok? ==> res.0 == users[AddressKey(email.value) := users[AddressKey(email.value)].(otpVerified := true)]
    ensures res.1 == Err(OtpExpired) <==>
      && Given(email) && AddressKey(email.value) in users && otp.Some?
      && users[AddressKey(email.value)].otp.Some?
      && Matches(otp.value, users[AddressKey(email.value)].otp.value)
      && (users[AddressKey(email.value)].otpExpiresAt.None? || now > users[AddressKey(email.value)].otpExpiresAt.value)
  {
    if !Given(email) then (users, Err(EmailRequired))
    else if AddressKey(email.value) !in users || users[AddressKey(email.value)].otp.None? || otp.None? then (users, Err(CompareFailed))
    else
      var u := users[AddressKey(email.value)];
      if Matches(otp.value, u.otp.value) then
        if u.otpExpiresAt.Some? && now <= u.otpExpiresAt.value then
          (users[AddressKey(email.value) := u.(otpVerified := true)], Ok(()))
        else (users, Err(OtpExpired))
      else (users, Err(WrongOtp))
  }

  /** The last step. The checks run in order — both fields given, the
      password policy, the user known, the user verified — and any failure
      leaves the users unchanged. Success stores the new password's hash and
      clears all three OTP fields. */
  function ResetPassword(users: Users, email: Option<string>, password: Option<string>, salt: nat)
    : (res: (Users, Result<(), AccountError>))
    ensures res.1.Err? ==> res.0 == users
    ensures res.1 == Err(EmailAndPasswordRequired) <==> !Given(email) || !Given(password)
    ensures res.1 == Err(PasswordPolicy) <==>
      Given(email) && Given(password) && !Credentials.ValidPassword(password.value)
    ensures res.1 == Err(EmailNotRegistered) <==>
      Given(email) && Given(password) && Credentials.ValidPassword(password.value) && AddressKey(email.value) !in users
    ensures res.1 == Err(OtpNotVerified) <==>
      && Given(email) && Given(password) && Credentials.ValidPassword(password.value)
      && AddressKey(email.value) in users && !users[AddressKey(email.value)].otpVerified
    ensures res.1.Ok? <==>
      && Given(email) && Given(password) && Credentials.ValidPassword(password.value)
      && AddressKey(email.value) in users && users[AddressKey(email.value)].otpVerified
    ensures res.1.Ok? ==>
      var u := users[AddressKey(email.value)];
      && res.0 == users[AddressKey(email.value) := User(u.name, Digest(salt, password.value), u.role, None, None, false)]
  {
    if !Given(email) || !Given(password) then (users, Err(EmailAndPasswordRequired))
    else if !Credentials.ValidPassword(password.value) then (users, Err(PasswordPolicy))
    else if AddressKey(email.value) !in users then (users, Err(EmailNotRegistered))
    else
      var u := users[AddressKey(email.value)];
      if !u.otpVerified then (users, Err(OtpNotVerified))
      else (users[AddressKey(email.value) := User(u.name, Digest(salt, password.value), u.role, None, None, false)], Ok(()))
  }

  /** The whole reset: an OTP requested at `t0` and entered from its mail at
      `t1`, no later than five minutes on, lets a valid new password be set;
      afterwards the new password signs in and a second reset is refused
      until the user verifies a fresh OTP. */
  lemma {:induction false} ResetFlow(users: Users, email: string, r: real, s0: nat, t0: int, t1: int,
                                     newPassword: string, s1: nat, s2: nat)
    requires 0.0 <= r < 1.0
    requires Credentials.ValidEmail(email) && AddressKey(email) in users
    requires t1 <= t0 + OtpLifetimeMs
    requires Credentials.ValidPassword(newPassword)
    ensures
      var (u1, mail) := ForgotPassword(users, Some(email), r, s0, t0);
      && mail.Ok?
      && var (u2, verified) := VerifyOtp(u1, Some(email), Some(mail.value.otp), t1);
      && verified.Ok?
      && var (u3, reset) := ResetPassword(u2, Some(email), Some(newPassword), s1);
      && reset.Ok?
      && LoginUser(u3, email, newPassword).Ok?
      && ResetPassword(u3, Some(email), Some(newPassword), s2) == (u3, Err(OtpNotVerified))
  {
    var (u1, mail) := ForgotPassword(users, Some(email), r, s0, t0);
    var (u2, verified) := VerifyOtp(u1, Some(email), Some(mail.value.otp), t1);
    var (u3, reset) := ResetPassword(u2, Some(email), Some(newPassword), s1);
    LoginWithStoredPassword(u3, email, newPassword);
  }

  /** Valid credentials whose password hashes to the stored one sign in. */
  lemma LoginWithStoredPassword(users: Users, email: string, password: string)
    requires Credentials.ValidEmail(email) && Credentials.ValidPassword(password)
    requires AddressKey(email) in users && Matches(password, users[AddressKey(email)].password)
    ensures LoginUser(users, email, password).Ok?
  {
    Credentials.ValidCredentialsAreTrimmed(email, password);
  }

  /** A mailed OTP entered after its five minutes is reported expired and
      verifies nothing. */
  lemma {:induction false} LateOtpExpires(users: Users, email: string, r: real, s0: nat, t0: int, t1: int)
    requires 0.0 <= r < 1.0
    requires Credentials.ValidEmail(email) && AddressKey(email) in users
    requires t1 > t0 + OtpLifetimeMs
    ensures
      var (u1, mail) := ForgotPassword(users, Some(email), r, s0, t0);
      && mail.Ok?
      && VerifyOtp(u1, Some(email), Some(mail.value.otp), t1) == (u1, Err(OtpExpired))
  {
  }

  /** Only verification sets the flag: a new OTP request keeps it as it was,
      and a reset cannot succeed for a user who has never verified one. */
  lemma ForgotKeepsVerification(users: Users, email: Option<string>, r: real, salt: nat, now: int)
    requires 0.0 <= r < 1.0
    ensures var after := ForgotPassword(users, email, r, salt, now).0;
      forall e :: e in users ==>
        (e in after && after[e].otpVerified == users[e].otpVerified && after[e].password == users[e].password)
  {
  }

  /** Registration followed by sign-in with the same credentials, even padded
      with white space, succeeds with the registered role. */
  lemma {:induction false} LoginAfterCreate(users: Users, name: string, email: string, password: string,
                                            role: string, salt: nat, pad: string)
    requires Credentials.ValidEmail(email) && Credentials.ValidPassword(password)
    requires AddressKey(email) !in users && name != "" && role != ""
    requires Text.Trim(pad) == ""
    ensures
      var (u1, created) := CreateUser(users, name, email, Some(password), role, salt);
      && created.Ok?
      && LoginUser(u1, pad + email + pad, password) == Ok(Session(Token(AddressKey(email), role), role, name))
  {
    var (u1, created) := CreateUser(users, name, email, Some(password), role, salt);
    var padded := pad + email + pad;
    Credentials.ValidCredentialsAreTrimmed(email, password);
    PaddingTrimmed(pad, email);
    assert Text.Trim(padded) == email;
    assert u1[AddressKey(email)].password == Digest(salt, password);
  }

  /** Addresses differing only in letter case name the same user: once one
      is registered, registering the other is refused, and the other signs in
      as the registered user. */
  lemma {:induction false} AddressCaseIgnored(users: Users, name: string, email: string, password: string,
                                              role: string, salt: nat, other: string)
    requires Credentials.ValidEmail(email) && Credentials.ValidEmail(other) && Credentials.ValidPassword(password)
    requires AddressKey(email) !in users && name != "" && role != ""
    requires AddressKey(other) == AddressKey(email)
    ensures
      var (u1, created) := CreateUser(users, name, email, Some(password), role, salt);
      && created.Ok?
      && CreateUser(u1, name, other, Some(password), role, salt) == (u1, Err(EmailAlreadyRegistered))
      && LoginUser(u1, other, password) == Ok(Session(Token(AddressKey(email), role), role, name))
  {
    var (u1, created) := CreateUser(users, name, email, Some(password), role, salt);
    Credentials.ValidCredentialsAreTrimmed(other, password);
    assert u1[AddressKey(other)].password == Digest(salt, password);
  }

  /** Trimming removes white-space padding around a trimmed string. */
  lemma {:induction false} PaddingTrimmed(pad: string, s: string)
    requires Text.Trim(pad) == "" && Text.Trim(s) == s && s != ""
    ensures Text.Trim(pad + s + pad) == s
  {
    Text.TrimEmptyIffAllSpace(pad);
    var t := pad + s + pad;
    var a, b := |pad|, |pad| + |s|;
    forall i | 0 <= i < a ensures Text.IsSpace(t[i]) {
      assert t[i] == pad[i];
    }
    forall i | b <= i < |t| ensures Text.IsSpace(t[i]) {
      assert t[i] == pad[i - b];
    }
    assert t[a] == s[0] && t[b - 1] == s[|s| - 1];
    Text.TrimAround(t, a, b);
    assert t[a..b] == s;
  }
}
