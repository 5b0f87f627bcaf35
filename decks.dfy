/**
  routes/decks.js: the thumbnail upload filter and the create, update,
  cascading delete and delete-thumbnail handlers over the deck collection.
*/
module Decks {
  import opened Records
  import opened Store

  // ---------------------------------------------------------------------
  // Upload filter
  // ---------------------------------------------------------------------

  datatype FilterDecision = Accept | Reject(error: string)

  const InvalidFormat := "Invalid file format. Only png, jpg, and jpeg are allowed."

  /** multer's fileFilter for thumbnails: only png, jpg and jpeg images get through. */
  function FileFilter(mimetype: string): (d: FilterDecision)
    ensures d.Accept? <==> mimetype in {"image/png", "image/jpg", "image/jpeg"}
    ensures d.Reject? ==> d.error == InvalidFormat
  {
    if IsImage(mimetype) then Accept else Reject(InvalidFormat)
  }

  // ---------------------------------------------------------------------
  // Create, update
  // ---------------------------------------------------------------------

  /** The body fields the deck routes read. */
  datatype DeckBody = DeckBody(title: Option<string>, description: Option<string>)

  /** The validators `check(f).not().isEmpty()` on title and description: a missing or empty field fails. */
  predicate Validates(b: DeckBody): (r: bool)
    ensures b.title.None? || b.description.None? ==> !r
    ensures b.title.Some? && b.description.Some? ==> (r <==> b.title.value != "" && b.description.value != "")
  {
    Truthy(b.title) && Truthy(b.description)
  }

  const DeckNotFound := "Deck not found"
  const DeckRemoved := "Deck was removed"

  /** POST /: a validated body becomes a new deck owned by the requester. */
  method Create(s: Db, requester: Id, b: DeckBody, upload: Option<Path>) returns (o: Outcome<Deck>)
    requires s.Valid()
    modifies s`decks, s`nextId
    ensures s.Valid()
    ensures !Validates(b) ==> o == Invalid && s.decks == old(s.decks) && s.nextId == old(s.nextId)
    ensures Validates(b) ==>
      && s.nextId == old(s.nextId) + 1
      && o == Ok(Deck(old(s.nextId), requester, b.title.value, b.description.value,
                      if upload.Some? then upload else Some(NullFile)))
      && s.decks == old(s.decks) + [o.body]
  {
    if !Validates(b) {
      return Invalid;
    }
    var id := s.NewId();
    var file := if upload.Some? then upload else Some(NullFile);
    var deck := Deck(id, requester, b.title.value, b.description.value, file);
    s.decks := s.decks + [deck];
    o := Ok(deck);
  }

  /** The `$set` document update builds: a field is present only when the request's value is truthy. */
  datatype DeckFields = DeckFields(title: Option<string>, description: Option<string>, file: Option<Path>)

  /** The `deckFields` document: each field is present exactly when the request's value is truthy, and then carries it. */
  function FieldsOf(b: DeckBody, upload: Option<Path>): (r: DeckFields)
    ensures (r.title.Some? <==> Truthy(b.title)) && (r.title.Some? ==> r.title == b.title)
    ensures (r.description.Some? <==> Truthy(b.description)) && (r.description.Some? ==> r.description == b.description)
    ensures (r.file.Some? <==> Truthy(upload)) && (r.file.Some? ==> r.file == upload)
  {
    DeckFields(
      if Truthy(b.title) then b.title else None,
      if Truthy(b.description) then b.description else None,
      if Truthy(upload) then upload else None)
  }

  /** `$set` of `f` on deck `d`: a present field overwrites, an absent one leaves the stored value; id and owner are never set. */
  function SetFields(d: Deck, f: DeckFields): (r: Deck)
    ensures r.id == d.id && r.user == d.user
    ensures r.title == (if f.title.Some? then f.title.value else d.title)
    ensures r.description == (if f.description.Some? then f.description.value else d.description)
    ensures f.file.Some? ==> r.file == f.file
    ensures f.file.None? ==> r.file == d.file
  {
    d.(title := if f.title.Some? then f.title.value else d.title,
       description := if f.description.Some? then f.description.value else d.description,
       file := if f.file.Some? then f.file else d.file)
  }

  /** The deck as PUT /:id leaves it: each field takes the request's value when that is truthy and keeps its own otherwise. */
  function Patched(d: Deck, b: DeckBody, upload: Option<Path>): (r: Deck)
    ensures r.id == d.id && r.user == d.user
    ensures r.title == (if Truthy(b.title) then b.title.value else d.title)
    ensures r.description == (if Truthy(b.description) then b.description.value else d.description)
    ensures r.file == (if Truthy(upload) then upload else d.file)
  {
    SetFields(d, FieldsOf(b, upload))
  }

  /** PUT /:id. As for cards, the validation result is never read. */
  method Update(s: Db, requester: Id, id: Id, b: DeckBody, upload: Option<Path>) returns (o: Outcome<Deck>)
    requires s.Valid()
    modifies s`decks
    ensures s.Valid()
    ensures o != Invalid
    ensures var found := IndexOf(old(s.decks), DeckId, id);
      match found
      case None => o == Refused(NotFound, DeckNotFound) && s.decks == old(s.decks)
      case Some(k) =>
        if old(s.decks)[k].user != requester then
          o == Refused(NotAuthorised, NotAuthorisedMsg) && s.decks == old(s.decks)
        else
          o == Ok(Patched(old(s.decks)[k], b, upload)) && s.decks == old(s.decks)[k := o.body]
  {
    var found := IndexOf(s.decks, DeckId, id);
    if found.None? {
      return Refused(NotFound, DeckNotFound);
    }
    var k := found.value;
    var deck := s.decks[k];
    if deck.user != requester {
      return Refused(NotAuthorised, NotAuthorisedMsg);
    }
    var updated := Patched(deck, b, upload);
    s.decks := s.decks[k := updated];
    o := Ok(updated);
  }

  // ---------------------------------------------------------------------
  // Cascading delete, delete thumbnail
  // ---------------------------------------------------------------------

  /** The thumbnail unlink of a deck delete, guarded by `if (deck.file)`: the string 'null' passes, an unset file does not. */
  function ThumbnailUnlink(file: Option<Path>): (r: seq<Path>)
    ensures |r| <= 1
    ensures r != [] <==> Truthy(file)
    ensures r != [] ==> Some(r[0]) == file
  {
    if Truthy(file) then [file.value] else []
  }

  /**
    DELETE /:id. A missing deck throws on `deck.file` and the catch replies
    500. Otherwise the owner check; then the deck is removed, the deck's
    cards are read into a snapshot and deleted, the thumbnail is unlinked
    if truthy, and each snapshot card's file is unlinked in order; an unset
    card file makes fs.unlink throw and the reply is 500, with the records
    already gone.
  */
  method Delete(s: Db, requester: Id, id: Id) returns (o: Outcome<string>)
    requires s.Valid()
    modifies s
    ensures s.Valid()
    ensures s.users == old(s.users) && s.nextId == old(s.nextId)
    ensures var found := IndexOf(old(s.decks), DeckId, id);
      match found
      case None =>
        o == ServerError && s.decks == old(s.decks) && s.cards == old(s.cards) && s.unlinked == old(s.unlinked)
      case Some(k) =>
        var deck := old(s.decks)[k];
        var snapshot := Having(old(s.cards), CardDeck, id);
        if deck.user != requester then
          o == Refused(NotAuthorised, NotAuthorisedMsg)
          && s.decks == old(s.decks) && s.cards == old(s.cards) && s.unlinked == old(s.unlinked)
        else
          && s.decks == Lacking(old(s.decks), DeckId, id)
          && |s.decks| == |old(s.decks)| - 1
          && s.cards == Lacking(old(s.cards), CardDeck, id)
          && |s.cards| == |old(s.cards)| - |snapshot|
          && s.unlinked == old(s.unlinked) + ThumbnailUnlink(deck.file) + UnlinkAttempts(Files(snapshot, CardFile))
          && o == (if AllPresent(Files(snapshot, CardFile)) then Ok(DeckRemoved) else ServerError)
          && (o.Ok? ==> |s.unlinked| == |old(s.unlinked)| + |ThumbnailUnlink(deck.file)| + |snapshot|)
  {
    var found := IndexOf(s.decks, DeckId, id);
    if found.None? {
      return ServerError;
    }
    var k := found.value;
    var deck := s.decks[k];
    if deck.user != requester {
      return Refused(NotAuthorised, NotAuthorisedMsg);
    }
    HavingUnique(s.decks, DeckId, k);
    s.RemoveDecks(DeckId, id);
    var cards := Having(s.cards, CardDeck, id);
    s.RemoveCards(CardDeck, id);

    ghost var before := s.unlinked;
    if Truthy(deck.file) {
      s.unlinked := s.unlinked + [deck.file.value];
    }
    assert s.unlinked == before + ThumbnailUnlink(deck.file);
    var completed := s.UnlinkEach(Files(cards, CardFile));
    o := if completed then Ok(DeckRemoved) else ServerError;
  }

  /**
    PUT /delete/thumbnail/:id: `$unset` of the deck's file, then one unlink
    of the path it had. Replies with the deck as it was before the update.
    A missing deck, or one whose file is already unset, throws in a way the
    catch block does not survive: no reply.
  */
  method DeleteThumbnail(s: Db, requester: Id, id: Id) returns (o: Outcome<Deck>)
    requires s.Valid()
    modifies s`decks, s`unlinked
    ensures s.Valid()
    ensures var found := IndexOf(old(s.decks), DeckId, id);
      match found
      case None => o == NoReply && s.decks == old(s.decks) && s.unlinked == old(s.unlinked)
      case Some(k) =>
        var deck := old(s.decks)[k];
        if deck.user != requester then
          o == Refused(NotAuthorised, NotAuthorisedMsg) && s.decks == old(s.decks) && s.unlinked == old(s.unlinked)
        else
          && s.decks == old(s.decks)[k := deck.(file := None)]
          && match deck.file
             case Some(p) => o == Ok(deck) && s.unlinked == old(s.unlinked) + [p]
             case None => o == NoReply && s.unlinked == old(s.unlinked)
  {
    var found := IndexOf(s.decks, DeckId, id);
    if found.None? {
      return NoReply;
    }
    var k := found.value;
    var deck := s.decks[k];
    if deck.user != requester {
      return Refused(NotAuthorised, NotAuthorisedMsg);
    }
    s.decks := s.decks[k := deck.(file := None)];
    match deck.file
    case None =>
      o := NoReply;
    case Some(p) =>
      s.unlinked := s.unlinked + [p];
      o := Ok(deck);
  }
}
