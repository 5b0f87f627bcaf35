/**
  routes/auth.js: the login decision and the password-reset lifecycle
  (forgot: store a reset id and its expiry; reset: check the link, then
  replace the password).
*/
module Auth {
  import opened Records
  import opened Store

  /** How long a reset link is valid: 30 minutes, in milliseconds. */
  const ResetWindow: int := 1800000

  /** The payload of the signed token login and registration issue: `{ user: { id } }`. */
  datatype Token = Token(userId: Id)

  const InvalidCredentials := "Invalid credentials"
  const NotRegistered := "The provided email address is not registered with omnilingu"
  const LinkExpired := "Update failed. The link may have expired. Please try again."
  const EmailSent := "An email has been sent. Please check your inbox."
  const PasswordUpdated := "Your password was successfully updated."

  // ---------------------------------------------------------------------
  // Login
  // ---------------------------------------------------------------------

  /**
    The validators of POST /: `check('email').isEmail()` and
    `check('password').exists()`. A missing field fails; with both present
    only the email test decides, so an empty password passes.
  */
  predicate LoginValidates(email: Option<string>, password: Option<string>, isEmail: string -> bool): (r: bool)
    ensures email.None? || password.None? ==> !r
    ensures email.Some? && password.Some? ==> (r <==> isEmail(email.value))
  {
    email.Some? && isEmail(email.value) && password.Some?
  }

  /**
    POST /. `isEmail` is the validator's email test and `matches` is
    bcrypt.compare of a plain password with a stored hash. An unknown email
    and a wrong password get the same reply; a token names only the user's id.
  */
  function Login(users: seq<User>, email: Option<string>, password: Option<string>,
                 isEmail: string -> bool, matches: (string, string) -> bool): (r: Outcome<Token>)
    ensures !LoginValidates(email, password, isEmail) <==> r == Invalid
    ensures r.Ok? || r == Invalid || r == Refused(BadRequest, InvalidCredentials)
    ensures r.Ok? ==> exists u :: u in users && u.email == email.value
                        && matches(password.value, u.password) && r.body == Token(u.id)
    ensures LoginValidates(email, password, isEmail) && (forall u :: u in users ==> u.email != email.value) ==>
              r == Refused(BadRequest, InvalidCredentials)
  {
    if !LoginValidates(email, password, isEmail) then Invalid
    else match IndexOf(users, UserEmail, email.value)
      case None => Refused(BadRequest, InvalidCredentials)
      case Some(k) =>
        if !matches(password.value, users[k].password) then Refused(BadRequest, InvalidCredentials)
        else Ok(Token(users[k].id))
  }

  /**
    Under the unique index on email, login succeeds exactly for the
    registered email with a matching password, and refuses everything else
    with one reply.
  */
  lemma {:induction false} LoginSucceedsExactly(users: seq<User>, email: string, password: string,
                                                isEmail: string -> bool, matches: (string, string) -> bool)
    requires Distinct(users, UserEmail) && isEmail(email)
    ensures var r := Login(users, Some(email), Some(password), isEmail, matches);
      (r.Ok? <==> exists u :: u in users && u.email == email && matches(password, u.password))
      && (!r.Ok? ==> r == Refused(BadRequest, InvalidCredentials))
  {
    var r := Login(users, Some(email), Some(password), isEmail, matches);
    if u :| u in users && u.email == email && matches(password, u.password) {
      var j :| 0 <= j < |users| && users[j] == u;
      var k := IndexOf(users, UserEmail, email).value;
      assert UserEmail(users[j]) == email;
      SameKeySameIndex(users, UserEmail, k, j);
    }
  }

  // ---------------------------------------------------------------------
  // Password reset
  // ---------------------------------------------------------------------

  /** JavaScript `now > expiry` for a Number field that may be undefined: a comparison with undefined is false. */
  predicate AfterExpiry(now: Time, expiry: Option<Time>): (r: bool)
    ensures expiry.None? ==> !r
    ensures expiry.Some? ==> (r <==> expiry.value < now)
  {
    expiry.Some? && now > expiry.value
  }

  /**
    The guard of PUT /reset/password: `currentTime > expiry || resetId !== stored`.
    Strict inequality of two possibly undefined strings is inequality of
    the two options: undefined equals only undefined.
  */
  predicate LinkRejected(now: Time, supplied: Option<string>, u: User): (r: bool)
    ensures supplied != u.resetId ==> r
    ensures u.resetExpiry.Some? && u.resetExpiry.value < now ==> r
    ensures u.resetExpiry.None? ==> (r <==> supplied != u.resetId)
  {
    AfterExpiry(now, u.resetExpiry) || supplied != u.resetId
  }

  /**
    The guard passes exactly when the supplied id is the stored one and the
    expiry is unset or not yet passed. In particular a user who never asked
    for a reset passes it with a request that carries no reset id.
  */
  lemma LinkAcceptedIff(now: Time, supplied: Option<string>, u: User)
    ensures !LinkRejected(now, supplied, u) <==>
      supplied == u.resetId && (u.resetExpiry.None? || now <= u.resetExpiry.value)
    ensures u.resetId.None? && u.resetExpiry.None? ==> !LinkRejected(now, None, u)
  {
  }

  /** The user as forgot-password leaves it: a new reset id valid for ResetWindow from `now`; email and password as they were. */
  function ResetRequested(u: User, resetId: string, now: Time): (r: User)
    ensures r.resetId == Some(resetId) && r.resetExpiry == Some(now + ResetWindow)
    ensures r.id == u.id && r.email == u.email && r.password == u.password
  {
    u.(resetId := Some(resetId), resetExpiry := Some(now + ResetWindow))
  }

  /**
    A link just issued passes the guard with its own id up to and including
    its expiry and fails after it; any other id, or none, fails at once.
  */
  lemma FreshLinkWindow(u: User, resetId: string, now: Time, t: Time, supplied: Option<string>)
    ensures var v := ResetRequested(u, resetId, now);
      !LinkRejected(t, supplied, v) <==> supplied == Some(resetId) && t <= now + ResetWindow
  {
  }

  /**
    A successful reset changes only the password, so the guard decides the
    same way afterwards: the link can be used again until it expires.
  */
  lemma ResetLeavesLinkUsable(u: User, hashed: string, t: Time, supplied: Option<string>)
    ensures LinkRejected(t, supplied, u.(password := hashed)) == LinkRejected(t, supplied, u)
  {
  }

  /**
    PUT /forgot. `now` is Date.now() and `resetId` the uuid drawn for the
    link. An unknown email is refused and no user changes; otherwise only
    that user's reset id and expiry are set. The email dispatched
    afterwards is not part of this model.
  */
  method ForgotPassword(s: Db, email: string, now: Time, resetId: string) returns (o: Outcome<string>)
    requires s.Valid()
    modifies s`users
    ensures s.Valid()
    ensures match IndexOf(old(s.users), UserEmail, email)
      case None => o == Refused(BadRequest, NotRegistered) && s.users == old(s.users)
      case Some(k) =>
        o == Ok(EmailSent) && s.users == old(s.users)[k := ResetRequested(old(s.users)[k], resetId, now)]
  {
    var found := IndexOf(s.users, UserEmail, email);
    if found.None? {
      return Refused(BadRequest, NotRegistered);
    }
    var k := found.value;
    s.users := s.users[k := ResetRequested(s.users[k], resetId, now)];
    o := Ok(EmailSent);
  }

  /**
    PUT /reset/password. `now` is Date.now() and `hashed` the bcrypt hash of
    the new password. Expiry and a wrong id get one and the same refusal; on
    success only the password changes.
  */
  method ResetPassword(s: Db, email: string, supplied: Option<string>, now: Time, hashed: string)
    returns (o: Outcome<string>)
    requires s.Valid()
    modifies s`users
    ensures s.Valid()
    ensures match IndexOf(old(s.users), UserEmail, email)
      case None => o == Refused(BadRequest, NotRegistered) && s.users == old(s.users)
      case Some(k) =>
        if LinkRejected(now, supplied, old(s.users)[k]) then
          o == Refused(BadRequest, LinkExpired) && s.users == old(s.users)
        else
          o == Ok(PasswordUpdated) && s.users == old(s.users)[k := old(s.users)[k].(password := hashed)]
  {
    var found := IndexOf(s.users, UserEmail, email);
    if found.None? {
      return Refused(BadRequest, NotRegistered);
    }
    var k := found.value;
    if LinkRejected(now, supplied, s.users[k]) {
      return Refused(BadRequest, LinkExpired);
    }
    s.users := s.users[k := s.users[k].(password := hashed)];
    o := Ok(PasswordUpdated);
  }
}
