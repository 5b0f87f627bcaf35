/**
  routes/users.js: registration with its duplicate-email check, and the
  cascading account delete.
*/
module Users {
  import opened Records
  import opened Store
  import Auth

  const UserExists := "User already exists"
  const UserRemoved := "User was removed"

  /**
    The validators of POST /: `check('email').isEmail()` and
    `check('password').isLength({ min: 6 })`. A missing field or a password
    shorter than six characters fails; otherwise the email test decides.
  */
  predicate RegisterValidates(email: Option<string>, password: Option<string>, isEmail: string -> bool): (r: bool)
    ensures email.None? || password.None? ==> !r
    ensures password.Some? && |password.value| < 6 ==> !r
    ensures email.Some? && password.Some? && |password.value| >= 6 ==> (r <==> isEmail(email.value))
  {
    email.Some? && isEmail(email.value) && password.Some? && |password.value| >= 6
  }

  /**
    POST /. `isEmail` is the validator's email test and `hashed` the bcrypt
    hash of the password. An email already registered is refused and no
    user is added; otherwise the new user is appended and the reply is a
    token naming it.
  */
  method Register(s: Db, email: Option<string>, password: Option<string>, isEmail: string -> bool, hashed: string)
    returns (o: Outcome<Auth.Token>)
    requires s.Valid()
    modifies s`users, s`nextId
    ensures s.Valid()
    ensures !RegisterValidates(email, password, isEmail) ==>
      o == Invalid && s.users == old(s.users) && s.nextId == old(s.nextId)
    ensures RegisterValidates(email, password, isEmail) && (exists u :: u in old(s.users) && u.email == email.value) ==>
      o == Refused(BadRequest, UserExists) && s.users == old(s.users) && s.nextId == old(s.nextId)
    ensures RegisterValidates(email, password, isEmail) && (forall u :: u in old(s.users) ==> u.email != email.value) ==>
      && o == Ok(Auth.Token(old(s.nextId)))
      && s.users == old(s.users) + [User(old(s.nextId), email.value, hashed, None, None)]
  {
    if !RegisterValidates(email, password, isEmail) {
      return Invalid;
    }
    var found := IndexOf(s.users, UserEmail, email.value);
    if found.Some? {
      assert s.users[found.value] in s.users;
      return Refused(BadRequest, UserExists);
    }
    var id := s.NewId();
    var user := User(id, email.value, hashed, None, None);
    s.users := s.users + [user];
    o := Ok(Auth.Token(id));
  }

  /**
    DELETE /:id. A missing user throws on `user._id` and the catch replies
    500. Only the user themself may delete the account. Then the user is
    removed; the user's cards are read into a snapshot, deleted, and each
    file unlinked in order; then the same for the user's decks. An unset
    file makes fs.unlink throw: the reply is 500 and nothing after that
    point happens, so an unset card file leaves the user's decks in place.
  */
  method DeleteAccount(s: Db, requester: Id, id: Id) returns (o: Outcome<string>)
    requires s.Valid()
    modifies s
    ensures s.Valid()
    ensures s.nextId == old(s.nextId)
    ensures var found := IndexOf(old(s.users), UserId, id);
      match found
      case None =>
        && o == ServerError
        && s.users == old(s.users) && s.decks == old(s.decks) && s.cards == old(s.cards)
        && s.unlinked == old(s.unlinked)
      case Some(k) =>
        var cardSnapshot := Files(Having(old(s.cards), CardOwner, id), CardFile);
        var deckSnapshot := Files(Having(old(s.decks), DeckOwner, id), DeckFile);
        if id != requester then
          && o == Refused(NotAuthorised, NotAuthorisedMsg)
          && s.users == old(s.users) && s.decks == old(s.decks) && s.cards == old(s.cards)
          && s.unlinked == old(s.unlinked)
        else
          && s.users == Lacking(old(s.users), UserId, id)
          && |s.users| == |old(s.users)| - 1
          && s.cards == Lacking(old(s.cards), CardOwner, id)
          && if !AllPresent(cardSnapshot) then
               && o == ServerError
               && s.decks == old(s.decks)
               && s.unlinked == old(s.unlinked) + UnlinkAttempts(cardSnapshot)
             else
               && s.decks == Lacking(old(s.decks), DeckOwner, id)
               && s.unlinked == old(s.unlinked) + UnlinkAttempts(cardSnapshot) + UnlinkAttempts(deckSnapshot)
               && o == (if AllPresent(deckSnapshot) then Ok(UserRemoved) else ServerError)
               && (o.Ok? ==> |s.unlinked| == |old(s.unlinked)| + |cardSnapshot| + |deckSnapshot|)
  {
    var found := IndexOf(s.users, UserId, id);
    if found.None? {
      return ServerError;
    }
    var k := found.value;
    if s.users[k].id != requester {
      return Refused(NotAuthorised, NotAuthorisedMsg);
    }
    HavingUnique(s.users, UserId, k);
    s.RemoveUsers(UserId, id);

    var cards := Having(s.cards, CardOwner, id);
    s.RemoveCards(CardOwner, id);
    ghost var before := s.unlinked;
    var completed := s.UnlinkEach(Files(cards, CardFile));
    if !completed {
      return ServerError;
    }

    var decks := Having(s.decks, DeckOwner, id);
    s.RemoveDecks(DeckOwner, id);
    ghost var between := s.unlinked;
    assert between == before + UnlinkAttempts(Files(cards, CardFile));
    completed := s.UnlinkEach(Files(decks, DeckFile));
    o := if completed then Ok(UserRemoved) else ServerError;
  }
}
