/**
  The three record kinds the flashcard backend keeps (users, decks, cards),
  shaped after their Mongoose schemas, and the outcome of an HTTP handler.
*/
module Records {

  datatype Option<+T> = None | Some(value: T)

  /** A Mongo ObjectId. */
  type Id = nat
  /** A path on the server's disk, as multer reports it and fs.unlink takes it. */
  type Path = string
  /** Milliseconds since the epoch, as Date.now returns them. */
  type Time = int

  /** A user. `password` holds the bcrypt hash; the reset id and its expiry are unset until a reset is requested. */
  datatype User = User(
    id: Id,
    email: string,
    password: string,
    resetId: Option<string>,
    resetExpiry: Option<Time>)

  /** A deck of cards. `file` is the thumbnail path; `$unset` removes it. */
  datatype Deck = Deck(
    id: Id,
    user: Id,
    title: string,
    description: string,
    file: Option<Path>)

  /** A card. `status` is a free string; only "hard", "medium" and "easy" take part in revision. */
  datatype Card = Card(
    id: Id,
    user: Id,
    deck: Id,
    question: string,
    answerText: string,
    status: Option<string>,
    file: Option<Path>)

  // Key functions, passed to the generic query helpers of module Store.
  function UserId(u: User): Id { u.id }
  function UserEmail(u: User): string { u.email }
  function DeckId(d: Deck): Id { d.id }
  function DeckOwner(d: Deck): Id { d.user }
  function DeckFile(d: Deck): Option<Path> { d.file }
  function CardId(c: Card): Id { c.id }
  function CardDeck(c: Card): Id { c.deck }
  function CardOwner(c: Card): Id { c.user }
  function CardFile(c: Card): Option<Path> { c.file }
  function CardStatus(c: Card): Option<string> { c.status }

  /** JavaScript truthiness of a string field that may be undefined: defined and not empty. */
  predicate Truthy(s: Option<string>) {
    s.Some? && s.value != ""
  }

  /** The mimetype test that both upload configurations use to recognise an image. */
  predicate IsImage(mimetype: string) {
    mimetype == "image/png" || mimetype == "image/jpg" || mimetype == "image/jpeg"
  }

  /** The `file` value create stores when nothing was uploaded: the string 'null', not a missing field. */
  const NullFile: Path := "null"

  /**
    What a route handler does with the request.
    `Refused` is a 4xx reply with a `{ msg }` body; `Invalid` is the 400 reply
    carrying the validator's error list; `ServerError` is the 500 reply
    'Server Error'; `NoReply` is a handler that ends without replying: either
    its catch block only logs, or the catch block itself throws.
  */
  datatype Outcome<T> =
    | Ok(body: T)
    | Refused(code: nat, msg: string)
    | Invalid
    | ServerError
    | NoReply

  const NotFound := 404
  const NotAuthorised := 401
  const BadRequest := 400

  const NotAuthorisedMsg := "Not authorised"
}
