# Flashcard backend: a verified model of its routes

This project models the core of an Express/Mongoose flashcard backend. Users
register and log in, keep decks of question/answer cards, and revise a deck
one card at a time. Revision favours the cards marked "hard". The model covers:

- the revision selector of `GET /cards/revise/:deck`;
- the create, partial-update, delete and delete-file handlers for cards and
  decks, each guarded by an ownership check;
- the cascading deletes of a deck and of an account, including the files
  they try to remove;
- the login decision and the password-reset lifecycle (forgot, then reset);
- registration with its duplicate-email check.

The database is `Store.Db`. It is a class holding the users, decks and cards
collections as sequences in their natural order. It also holds an ObjectId
generator (`nextId`) and the log `unlinked`: every path handed to `fs.unlink`,
in order. `Db.Valid()` is the store invariant, and every handler preserves it:

- ids are unique within each collection;
- emails are unique;
- every id is below `nextId`;
- a user's reset id and its expiry are either both set or both unset.

Queries are generic functions over one collection:

- `IndexOf` stands for `findById` and `findOne`;
- `Having` stands for `find`;
- `Lacking` is what `deleteMany` leaves behind.

Each route file is one module: `Cards`, `Decks`, `Auth` and `Users`. A
handler is a method. It takes the store, the verified requester id
(`req.user.id`) and the request fields, and returns an `Outcome`:

- `Ok`: a JSON body;
- `Refused`: a 4xx reply with a message;
- `Invalid`: the validator's 400 reply;
- `ServerError`: a 500 reply;
- `NoReply`: the handler ends without replying.

The source's nondeterministic and foreign calls become parameters:

- `Math.random()` is a real draw `u` with `0 <= u < 1`;
- `Date.now()` is `now`;
- `uuidv4()` is the `resetId` argument;
- a bcrypt hash is the `hashed` argument;
- `bcrypt.compare` is the `matches` function;
- the validator's email test is the `isEmail` function.

Behaviour of the code as written, which the model keeps:

- Card delete, card delete-file, deck delete and deck delete-thumbnail read
  `x.file` before checking whether `x` is null, so a missing record throws.
  - In card delete, card delete-file and deck delete-thumbnail, the catch
    block uses an undeclared `err` and throws again: there is no reply
    (`NoReply`). So the 404 branch of card delete and delete-file, and of deck
    delete-thumbnail, is never reached.
  - Deck delete has a working catch block: a missing deck gets 500.
  - Account delete reads `user._id` on null and gets 500.
- Create stores the literal string `'null'` as `file` when nothing was
  uploaded. That string is truthy, so deck delete tries to unlink it.
  Deleting a file or thumbnail `$unset`s the field instead.
- `fs.unlink` throws synchronously when its path is undefined, that is, when
  the field was `$unset`. An unlink loop therefore stops at the first record
  without a file (`Store.UnlinkAttempts`), and the handler replies 500. The
  records are already deleted by then. In account delete this happens before
  the decks step, so the user's decks stay in the store.
- The update routes run the validators but never read their result.
- A successful reset does not clear the reset id or its expiry, so the same
  link passes the guard again until it expires. A single-use link would clear
  them; the code does not, and the model follows the code.
- JavaScript's `now > undefined` is false and `undefined !== undefined` is
  false. So a user who never requested a reset passes the guard with a request
  that carries no reset id: the guard accepts an unset expiry as well as one
  not yet passed.

## Model

| member | source | states |
|---|---|---|
| `Store.IndexOf` | routes/auth.js:44 | `findOne`/`findById`: the first index whose key matches, and None exactly when no record matches |
| `Store.Having` | routes/decks.js:168 | `find({ key: v })`: exactly the records whose key is `v`; empty exactly when none is |
| `Store.Lacking` | routes/decks.js:170 | `deleteMany({ key: v })` keeps exactly the records whose key is not `v`: every record of another deck or owner survives |
| `Store.HavingLackingSplit` | routes/users.js:103-105 | the snapshot `find` returns and the records `deleteMany` leaves hold every record exactly as often as the collection did, so each snapshot record is removed once and the count removed is the snapshot's length |
| `Store.LackingDistinct` | routes/decks.js:166-170 | removing records keeps a unique index unique |
| `Store.HavingUnique` | routes/cards.js:98 | under unique ids, removing by id removes exactly the one record found |
| `Store.UnlinkAttempts` | routes/decks.js:180-184 | the paths an unlink loop hands to fs.unlink: one per snapshot element in order, up to the first unset file; one per element exactly when all are set |
| `Store.UnlinkAttemptsUnique` | routes/users.js:107-111 | this characterisation of the unlink loop determines the attempted paths |
| `Store.Db.NewId` | routes/cards.js:75 | `save` hands out an ObjectId no record holds yet and advances the generator by one |
| `Store.Db.UnlinkEach` | routes/decks.js:180-184 | the `for` loop: it appends `UnlinkAttempts(files)` to the log and completes exactly when every file is set |
| `Store.Db.RemoveCards` | routes/decks.js:170 | `Card.deleteMany` keeps the store valid and leaves `Lacking(cards, key, v)` |
| `Store.Db.RemoveDecks` | routes/users.js:115 | `Deck.deleteMany` keeps the store valid and leaves `Lacking(decks, key, v)` |
| `Store.Db.RemoveUsers` | routes/users.js:101 | `User.findByIdAndRemove` keeps the store valid and leaves `Lacking(users, UserId, id)` |
| `Cards.Destination` | routes/cards.js:9-16 | png, jpg and jpeg uploads go to the image directory; every other upload goes to the audio directory |
| `Cards.Tier` | routes/cards.js:138 | the cards of one tier are exactly the deck's cards with that status |
| `Cards.Offset` | routes/cards.js:140 | `floor(random * count)` is 0 for an empty tier and lies in `[0, count)` otherwise |
| `Cards.Pick` | routes/cards.js:138-143 | a tier lookup returns null exactly when the tier is empty; otherwise it returns the card at the drawn offset |
| `Cards.Revise` | routes/cards.js:135-166 | a returned card is in the requested deck with status hard, medium or easy; null exactly when the deck has no such card; medium only without hard cards; easy only without hard or medium cards |
| `Cards.ReviseHardFirst` | routes/cards.js:138-145 | a deck with a hard card yields a hard card, and the medium and easy draws do not matter |
| `Cards.OffsetHits` | routes/cards.js:140-143 | the draw `k / count` selects offset `k` |
| `Cards.ReviseReaches` | routes/cards.js:138-157 | every card of the first non-empty tier is returned for some draw |
| `Cards.Validates` | routes/cards.js:29-46 | the create validators: a missing deck, question or answer fails, an empty question or answer fails, and status is not checked |
| `Cards.Create` | routes/cards.js:29-82 | an invalid body gets 400 and no change; otherwise one card is appended with a fresh id, `user` set to the requester, and `file` set to the upload path or `'null'` |
| `Cards.FieldsOf` | routes/cards.js:182-193 | `cardFields` holds a field exactly when the request's value is truthy, and then holds that value |
| `Cards.SetFields` | routes/cards.js:204-207 | `$set` overwrites each present field and keeps each absent one; id and owner are never set |
| `Cards.Patched` | routes/cards.js:180-193 | each field takes the request's value when truthy and keeps its own otherwise; id and owner never change |
| `Cards.Update` | routes/cards.js:169-218 | 404 for a missing card and 401 for another owner, both with no change; otherwise only that card becomes `Patched`; never a validation 400 |
| `Cards.Delete` | routes/cards.js:85-109 | a missing card gets no reply and no change; another owner gets 401 and no change; otherwise exactly that card is removed, and one unlink of its file is attempted, or none with no reply when the file is unset |
| `Cards.DeleteFile` | routes/cards.js:221-248 | as Delete, except the card stays with its file unset, and the reply is the card as it was before |
| `Decks.FileFilter` | routes/decks.js:18-25 | a thumbnail is accepted exactly when its mimetype is image/png, image/jpg or image/jpeg; otherwise it is refused with the fixed message |
| `Decks.Validates` | routes/decks.js:55-66 | the create validators: a missing or empty title or description fails |
| `Decks.Create` | routes/decks.js:55-102 | an invalid body gets 400 and no change; otherwise one deck is appended with a fresh id, the requester as owner, and the upload path or `'null'` as file |
| `Decks.FieldsOf` | routes/decks.js:116-125 | `deckFields` holds a field exactly when the request's value is truthy, and then holds that value |
| `Decks.SetFields` | routes/decks.js:136-139 | `$set` overwrites each present field and keeps each absent one; id and owner are never set |
| `Decks.Patched` | routes/decks.js:114-125 | title, description and file each take the truthy request value or keep their own; id and owner never change |
| `Decks.Update` | routes/decks.js:105-150 | 404 for a missing deck and 401 for another owner, both with no change; otherwise only that deck becomes `Patched` |
| `Decks.ThumbnailUnlink` | routes/decks.js:173-177 | one thumbnail unlink exactly when the file is truthy (including `'null'`), and none for an unset file |
| `Decks.Delete` | routes/decks.js:153-193 | a missing deck gets 500 and another owner gets 401, both with no change; otherwise the deck and exactly its cards go, others stay, and the unlinks are the truthy thumbnail then each snapshot card's file; with all files set that is one per card plus the thumbnail |
| `Decks.DeleteThumbnail` | routes/decks.js:195-224 | a missing deck gets no reply and another owner gets 401, both with no change; otherwise the file is unset and one unlink of the old path is attempted |
| `Auth.LoginValidates` | routes/auth.js:27-38 | the login validators: a missing email or password fails; with both present only the email test decides, so an empty password passes |
| `Auth.Login` | routes/auth.js:27-78 | an invalid body gets 400; an unknown email and a wrong password get the same 400 "Invalid credentials"; a token carries only the id of a user whose email and password match |
| `Auth.LoginSucceedsExactly` | routes/auth.js:44-63 | with unique emails, login succeeds exactly when some user has that email and a matching password |
| `Auth.AfterExpiry` | routes/auth.js:160 | `currentTime > expiry` is false when the expiry is undefined, and is the strict comparison otherwise |
| `Auth.LinkRejected` | routes/auth.js:160-162 | the reset guard refuses whenever the supplied id differs from the stored one (undefined equals only undefined) or the expiry has passed; with no expiry only the id comparison decides |
| `Auth.LinkAcceptedIff` | routes/auth.js:160-162 | the reset guard passes exactly when the supplied id equals the stored one and the expiry is unset or not passed; with nothing stored and nothing supplied it passes |
| `Auth.ResetRequested` | routes/auth.js:93-102 | forgot sets the reset id and an expiry of `now + 1800000`, and keeps id, email and password |
| `Auth.FreshLinkWindow` | routes/auth.js:93-102 | a link just issued passes the guard with its own id until `now + 1800000` inclusive and never with another id |
| `Auth.ResetLeavesLinkUsable` | routes/auth.js:163-172 | after a reset the guard decides as before, so the link can be used again until it expires |
| `Auth.ForgotPassword` | routes/auth.js:81-145 | an unknown email gets 400 and no user changes; otherwise only that user's reset fields change |
| `Auth.ResetPassword` | routes/auth.js:148-177 | an unknown email gets 400; a failed guard gets one single 400 message with no change; otherwise only that user's password changes |
| `Users.RegisterValidates` | routes/users.js:29-43 | the register validators: a missing field or a password under six characters fails; otherwise the email test decides |
| `Users.Register` | routes/users.js:29-89 | an invalid body gets 400; an existing email gets 400 "User already exists" and no user is added; otherwise one user is appended with a fresh id, no reset fields, and a token naming it |
| `Users.DeleteAccount` | routes/users.js:92-128 | a missing user gets 500 and another requester gets 401, both with no change; otherwise the user, then that user's cards, then that user's decks are removed, and others' records stay; card unlinks come before deck unlinks, one per snapshot record, and an unset card file stops the work before the decks step |

## Left out

- The read-only routes (listing a deck's cards, fetching a card, listing
  decks, fetching a deck, fetching the logged-in user, listing users) are not
  modelled: each is a single query with no decision in it.
- Token signing and verification are left out, along with the token's
  360000-second lifetime. `jwt.sign`, `jwt.verify` and the auth middleware
  are foreign calls; the verified user id is an input and a token is its
  payload.
- Hashing, uuid generation, `Date.now` and `Math.random` are foreign or
  nondeterministic. They are parameters.
- `Math.random() * count` is modelled as an exact real product. Floating-point
  rounding is left out.
- Email dispatch after a forgot-password request is outbound I/O and is left
  out.
- Of multer, only the card storage's `destination` choice (`Cards.Destination`)
  and the thumbnail `fileFilter` (`Decks.FileFilter`) are modelled. Writing
  the file, the generated file name, and what happens to a request whose
  upload the filter refuses are left out; the upload reaches the handlers as
  an optional path.
- express-validator's email test is a parameter. `isLength({ min: 6 })` is
  modelled as a sequence length.
- Requests whose ids are not valid ObjectIds are left out. In the source they
  throw a cast error, which the catch block turns into a 500, or into no
  reply where the catch block reads the undeclared `err` (card delete, card
  delete-file, deck delete-thumbnail) or only logs (forgot, reset). Failures
  of the database itself and a duplicate key raised by the unique index are
  left out as well.
- Forgot-password and reset requests with no email, and a reset with no new
  password, are left out. Here the source depends on how the query treats an
  undefined filter and on bcrypt throwing.
- `fs.unlink` is modelled only as the list of paths it is handed. Whether the
  removal succeeds is left out; the source only logs it.
- Concurrency is left out: the model runs each handler on one snapshot of the
  store.
