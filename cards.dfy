/**
  routes/cards.js: where card uploads are stored, the revision selector, and
  the create, update, delete and delete-file handlers over the card
  collection.
*/
module Cards {
  import opened Records
  import opened Store

  // ---------------------------------------------------------------------
  // Upload destination
  // ---------------------------------------------------------------------

  const ImageDir := "storage/cards/image"
  const AudioDir := "storage/cards/audio"

  /** multer's destination callback: images go to one directory, every other upload to the audio one. */
  function Destination(mimetype: string): (dir: string)
    ensures dir == ImageDir <==> IsImage(mimetype)
    ensures dir == AudioDir <==> !IsImage(mimetype)
  {
    if IsImage(mimetype) then ImageDir else AudioDir
  }

  // ---------------------------------------------------------------------
  // Revision selector
  // ---------------------------------------------------------------------

  const Hard := "hard"
  const Medium := "medium"
  const Easy := "easy"

  /** The statuses revision draws from. */
  predicate Revisable(status: Option<string>) {
    status == Some(Hard) || status == Some(Medium) || status == Some(Easy)
  }

  /** The cards of `find({ deck, status: tier })`, in store order. */
  function Tier(cards: seq<Card>, deck: Id, tier: string): (r: seq<Card>)
    ensures forall c :: c in r <==> c in cards && c.deck == deck && c.status == Some(tier)
    ensures r == [] <==> forall c :: c in cards && c.deck == deck ==> c.status != Some(tier)
  {
    Having(Having(cards, CardDeck, deck), CardStatus, Some(tier))
  }

  /** A value Math.random can return. */
  predicate IsDraw(u: real) {
    0.0 <= u < 1.0
  }

  /** `Math.floor(Math.random() * count)` for the draw `u`: an offset inside the tier whenever the tier has a card. */
  function Offset(u: real, count: nat): (k: int)
    requires IsDraw(u)
    ensures count == 0 ==> k == 0
    ensures count > 0 ==> 0 <= k < count
  {
    (u * count as real).Floor
  }

  /**
    One tier's lookup: count the tier, draw an offset, and
    `findOne().where({ deck, status: tier }).skip(offset)`, which is null
    when the offset is past the last match.
  */
  function Pick(cards: seq<Card>, deck: Id, tier: string, u: real): (r: Option<Card>)
    requires IsDraw(u)
    ensures r.None? <==> Tier(cards, deck, tier) == []
    ensures r.Some? ==> r.value == Tier(cards, deck, tier)[Offset(u, |Tier(cards, deck, tier)|)]
  {
    var matching := Tier(cards, deck, tier);
    var k := Offset(u, |matching|);
    if k < |matching| then Some(matching[k]) else None
  }

  /**
    GET /revise/:deck. Hard, then medium, then easy: each tier is looked up
    with its own draw, and only when the tier before it came back null.
  */
  function Revise(cards: seq<Card>, deck: Id, uHard: real, uMedium: real, uEasy: real): (r: Option<Card>)
    requires IsDraw(uHard) && IsDraw(uMedium) && IsDraw(uEasy)
    ensures r.Some? ==> r.value in cards && r.value.deck == deck && Revisable(r.value.status)
    ensures r.None? <==> forall c :: c in cards && c.deck == deck ==> !Revisable(c.status)
    ensures r.Some? && r.value.status != Some(Hard) ==>
      forall c :: c in cards && c.deck == deck ==> c.status != Some(Hard)
    ensures r.Some? && r.value.status == Some(Easy) ==>
      forall c :: c in cards && c.deck == deck ==> c.status != Some(Medium)
  {
    var hard := Pick(cards, deck, Hard, uHard);
    if hard.Some? then hard
    else
      var medium := Pick(cards, deck, Medium, uMedium);
      if medium.Some? then medium
      else Pick(cards, deck, Easy, uEasy)
  }

  /** A deck with a hard card gets a hard card, whatever the later draws would have been. */
  lemma ReviseHardFirst(cards: seq<Card>, deck: Id, uHard: real, uMedium: real, uEasy: real, vMedium: real, vEasy: real)
    requires IsDraw(uHard) && IsDraw(uMedium) && IsDraw(uEasy) && IsDraw(vMedium) && IsDraw(vEasy)
    requires exists c :: c in cards && c.deck == deck && c.status == Some(Hard)
    ensures var r := Revise(cards, deck, uHard, uMedium, uEasy);
      r.Some? && r.value.status == Some(Hard)
      && r == Revise(cards, deck, uHard, vMedium, vEasy)
  {
    var c :| c in cards && c.deck == deck && c.status == Some(Hard);
    assert c in Tier(cards, deck, Hard);
  }

  lemma FactorBelowOne(u: real, n: real)
    requires n > 0.0 && u * n < n
    ensures u < 1.0
  {
  }

  /** The draw `k / count` lands on the k-th card of a tier of `count` cards. */
  lemma {:induction false} OffsetHits(k: nat, count: nat)
    requires k < count
    ensures IsDraw(k as real / count as real)
    ensures Offset(k as real / count as real, count) == k
  {
    var u := k as real / count as real;
    assert u * count as real == k as real;
    FactorBelowOne(u, count as real);
  }

  /**
    Every card of the tier revision draws from can come back: every hard
    card, a medium card when the deck has no hard card, an easy card when it
    has neither.
  */
  lemma ReviseReaches(cards: seq<Card>, deck: Id, c: Card) returns (u: real)
    requires c in cards && c.deck == deck && Revisable(c.status)
    requires c.status != Some(Hard) ==> forall d :: d in cards && d.deck == deck ==> d.status != Some(Hard)
    requires c.status == Some(Easy) ==> forall d :: d in cards && d.deck == deck ==> d.status != Some(Medium)
    ensures IsDraw(u) && Revise(cards, deck, u, u, u) == Some(c)
  {
    var tier := c.status.value;
    var matching := Tier(cards, deck, tier);
    assert c in matching;
    var k :| 0 <= k < |matching| && matching[k] == c;
    OffsetHits(k, |matching|);
    u := k as real / |matching| as real;
  }

  // ---------------------------------------------------------------------
  // Create, update, delete, delete file
  // ---------------------------------------------------------------------

  /** The body fields the card routes read. `deck` is None when absent or empty. */
  datatype CardBody = CardBody(deck: Option<Id>, question: Option<string>, answerText: Option<string>, status: Option<string>)

  /**
    The validators `check(f).not().isEmpty()` on deck, question and answerText:
    a missing field fails, an empty question or answer fails, and status is
    not checked.
  */
  predicate Validates(b: CardBody): (r: bool)
    ensures b.deck.None? || b.question.None? || b.answerText.None? ==> !r
    ensures b.deck.Some? && b.question.Some? && b.answerText.Some? ==>
      (r <==> b.question.value != "" && b.answerText.value != "")
  {
    b.deck.Some? && Truthy(b.question) && Truthy(b.answerText)
  }

  const CardNotFound := "Card not found"
  const CardRemoved := "Card was removed"

  /** POST /: a validated body becomes a new card owned by the requester. */
  method Create(s: Db, requester: Id, b: CardBody, upload: Option<Path>) returns (o: Outcome<Card>)
    requires s.Valid()
    modifies s`cards, s`nextId
    ensures s.Valid()
    ensures !Validates(b) ==> o == Invalid && s.cards == old(s.cards) && s.nextId == old(s.nextId)
    ensures Validates(b) ==>
      && s.nextId == old(s.nextId) + 1
      && o == Ok(Card(old(s.nextId), requester, b.deck.value, b.question.value, b.answerText.value,
                      b.status, if upload.Some? then upload else Some(NullFile)))
      && s.cards == old(s.cards) + [o.body]
  {
    if !Validates(b) {
      return Invalid;
    }
    var id := s.NewId();
    var file := if upload.Some? then upload else Some(NullFile);
    var card := Card(id, requester, b.deck.value, b.question.value, b.answerText.value, b.status, file);
    s.cards := s.cards + [card];
    o := Ok(card);
  }

  /** The `$set` document update builds: a field is present only when the request's value is truthy. */
  datatype CardFields = CardFields(deck: Option<Id>, question: Option<string>, answerText: Option<string>,
                                   status: Option<string>, file: Option<Path>)

  /** The `cardFields` document: each field is present exactly when the request's value is truthy, and then carries it. */
  function FieldsOf(b: CardBody, upload: Option<Path>): (r: CardFields)
    ensures r.deck == b.deck
    ensures (r.question.Some? <==> Truthy(b.question)) && (r.question.Some? ==> r.question == b.question)
    ensures (r.answerText.Some? <==> Truthy(b.answerText)) && (r.answerText.Some? ==> r.answerText == b.answerText)
    ensures (r.status.Some? <==> Truthy(b.status)) && (r.status.Some? ==> r.status == b.status)
    ensures (r.file.Some? <==> Truthy(upload)) && (r.file.Some? ==> r.file == upload)
  {
    CardFields(
      b.deck,
      if Truthy(b.question) then b.question else None,
      if Truthy(b.answerText) then b.answerText else None,
      if Truthy(b.status) then b.status else None,
      if Truthy(upload) then upload else None)
  }

  /** `$set` of `f` on card `c`: a present field overwrites, an absent one leaves the stored value; id and owner are never set. */
  function SetFields(c: Card, f: CardFields): (r: Card)
    ensures r.id == c.id && r.user == c.user
    ensures r.deck == (if f.deck.Some? then f.deck.value else c.deck)
    ensures r.question == (if f.question.Some? then f.question.value else c.question)
    ensures r.answerText == (if f.answerText.Some? then f.answerText.value else c.answerText)
    ensures f.status.Some? ==> r.status == f.status
    ensures f.status.None? ==> r.status == c.status
    ensures f.file.Some? ==> r.file == f.file
    ensures f.file.None? ==> r.file == c.file
  {
    c.(deck := if f.deck.Some? then f.deck.value else c.deck,
       question := if f.question.Some? then f.question.value else c.question,
       answerText := if f.answerText.Some? then f.answerText.value else c.answerText,
       status := if f.status.Some? then f.status else c.status,
       file := if f.file.Some? then f.file else c.file)
  }

  /** The card as PUT /:id leaves it: each field takes the request's value when that is truthy and keeps its own otherwise. */
  function Patched(c: Card, b: CardBody, upload: Option<Path>): (r: Card)
    ensures r.id == c.id && r.user == c.user
    ensures r.deck == (if b.deck.Some? then b.deck.value else c.deck)
    ensures r.question == (if Truthy(b.question) then b.question.value else c.question)
    ensures r.answerText == (if Truthy(b.answerText) then b.answerText.value else c.answerText)
    ensures r.status == (if Truthy(b.status) then b.status else c.status)
    ensures r.file == (if Truthy(upload) then upload else c.file)
  {
    SetFields(c, FieldsOf(b, upload))
  }

  /** PUT /:id. The validators run but their result is never read, so a body lacking fields is not refused. */
  method Update(s: Db, requester: Id, id: Id, b: CardBody, upload: Option<Path>) returns (o: Outcome<Card>)
    requires s.Valid()
    modifies s`cards
    ensures s.Valid()
    ensures o != Invalid
    ensures var found := IndexOf(old(s.cards), CardId, id);
      match found
      case None => o == Refused(NotFound, CardNotFound) && s.cards == old(s.cards)
      case Some(k) =>
        if old(s.cards)[k].user != requester then
          o == Refused(NotAuthorised, NotAuthorisedMsg) && s.cards == old(s.cards)
        else
          o == Ok(Patched(old(s.cards)[k], b, upload)) && s.cards == old(s.cards)[k := o.body]
  {
    var found := IndexOf(s.cards, CardId, id);
    if found.None? {
      return Refused(NotFound, CardNotFound);
    }
    var k := found.value;
    var card := s.cards[k];
    if card.user != requester {
      return Refused(NotAuthorised, NotAuthorisedMsg);
    }
    var updated := Patched(card, b, upload);
    s.cards := s.cards[k := updated];
    o := Ok(updated);
  }

  /**
    DELETE /:id. `card.file` is read before the null check, so a missing card
    throws, and the catch block throws again on its undeclared `err`: no
    reply. Otherwise the owner check, the removal, then one unlink of the
    card's file, which throws the same way when the file was unset.
  */
  method Delete(s: Db, requester: Id, id: Id) returns (o: Outcome<string>)
    requires s.Valid()
    modifies s`cards, s`unlinked
    ensures s.Valid()
    ensures var found := IndexOf(old(s.cards), CardId, id);
      match found
      case None => o == NoReply && s.cards == old(s.cards) && s.unlinked == old(s.unlinked)
      case Some(k) =>
        var card := old(s.cards)[k];
        if card.user != requester then
          o == Refused(NotAuthorised, NotAuthorisedMsg) && s.cards == old(s.cards) && s.unlinked == old(s.unlinked)
        else
          && s.cards == Lacking(old(s.cards), CardId, id)
          && |s.cards| == |old(s.cards)| - 1
          && match card.file
             case Some(p) => o == Ok(CardRemoved) && s.unlinked == old(s.unlinked) + [p]
             case None => o == NoReply && s.unlinked == old(s.unlinked)
  {
    var found := IndexOf(s.cards, CardId, id);
    if found.None? {
      return NoReply;
    }
    var k := found.value;
    var card := s.cards[k];
    if card.user != requester {
      return Refused(NotAuthorised, NotAuthorisedMsg);
    }
    HavingUnique(s.cards, CardId, k);
    s.RemoveCards(CardId, id);
    match card.file
    case None =>
      o := NoReply;
    case Some(p) =>
      s.unlinked := s.unlinked + [p];
      o := Ok(CardRemoved);
  }

  /**
    PUT /delete/file/:id: `$unset` of the card's file, then one unlink of
    the path it had. Replies with the card as it was before the update.
    A missing card, or one whose file is already unset, throws in a way the
    catch block does not survive: no reply.
  */
  method DeleteFile(s: Db, requester: Id, id: Id) returns (o: Outcome<Card>)
    requires s.Valid()
    modifies s`cards, s`unlinked
    ensures s.Valid()
    ensures var found := IndexOf(old(s.cards), CardId, id);
      match found
      case None => o == NoReply && s.cards == old(s.cards) && s.unlinked == old(s.unlinked)
      case Some(k) =>
        var card := old(s.cards)[k];
        if card.user != requester then
          o == Refused(NotAuthorised, NotAuthorisedMsg) && s.cards == old(s.cards) && s.unlinked == old(s.unlinked)
        else
          && s.cards == old(s.cards)[k := card.(file := None)]
          && match card.file
             case Some(p) => o == Ok(card) && s.unlinked == old(s.unlinked) + [p]
             case None => o == NoReply && s.unlinked == old(s.unlinked)
  {
    var found := IndexOf(s.cards, CardId, id);
    if found.None? {
      return NoReply;
    }
    var k := found.value;
    var card := s.cards[k];
    if card.user != requester {
      return Refused(NotAuthorised, NotAuthorisedMsg);
    }
    s.cards := s.cards[k := card.(file := None)];
    match card.file
    case None =>
      o := NoReply;
    case Some(p) =>
      s.unlinked := s.unlinked + [p];
      o := Ok(card);
  }
}
