/**
  The document store the routes work on: the users, decks and cards
  collections in their natural order, the ObjectId generator, and the log of
  the paths handed to fs.unlink. The queries the routes issue
  (`findById`, `findOne`, `find`, `deleteMany`) are functions over a
  collection; the unlink loops of the cascading deletes are `Db.UnlinkEach`.
*/
module Store {
  import opened Records

  /** No two records of `xs` agree on `key` (a unique index). */
  ghost predicate Distinct<T, K>(xs: seq<T>, key: T -> K) {
    forall i, j :: 0 <= i < j < |xs| ==> key(xs[i]) != key(xs[j])
  }

  /** Under a unique index, two positions holding the same key are one position. */
  lemma SameKeySameIndex<T, K>(xs: seq<T>, key: T -> K, i: nat, j: nat)
    requires Distinct(xs, key) && i < |xs| && j < |xs| && key(xs[i]) == key(xs[j])
    ensures i == j
  {
  }

  /** Every record of `xs` has a `key` below `bound`: ids not yet handed out are fresh. */
  ghost predicate Below<T>(xs: seq<T>, key: T -> Id, bound: Id) {
    forall x :: x in xs ==> key(x) < bound
  }

  /** The index of the first record whose `key` is `v`: what `findOne`/`findById` return. */
  function IndexOf<T, K(==)>(xs: seq<T>, key: T -> K, v: K): (r: Option<nat>)
    ensures r.Some? ==> r.value < |xs| && key(xs[r.value]) == v
    ensures r.Some? ==> forall j :: 0 <= j < r.value ==> key(xs[j]) != v
    ensures r.None? <==> forall j :: 0 <= j < |xs| ==> key(xs[j]) != v
  {
    if xs == [] then None
    else if key(xs[0]) == v then Some(0)
    else match IndexOf(xs[1..], key, v)
      case None => None
      case Some(k) => Some(k + 1)
  }

  /** The records whose `key` is `v`, in store order: `find({ key: v })`. */
  function Having<T(!new), K(==)>(xs: seq<T>, key: T -> K, v: K): (r: seq<T>)
    ensures |r| <= |xs|
    ensures forall x :: x in r <==> x in xs && key(x) == v
    ensures r == [] <==> forall x :: x in xs ==> key(x) != v
  {
    if xs == [] then []
    else (if key(xs[0]) == v then [xs[0]] else []) + Having(xs[1..], key, v)
  }

  /** The records `deleteMany({ key: v })` leaves in place, in store order. */
  function Lacking<T(!new), K(==)>(xs: seq<T>, key: T -> K, v: K): (r: seq<T>)
    ensures |r| <= |xs|
    ensures forall x :: x in r <==> x in xs && key(x) != v
  {
    if xs == [] then []
    else (if key(xs[0]) != v then [xs[0]] else []) + Lacking(xs[1..], key, v)
  }

  /**
    The matching find and the records a deleteMany leaves together hold every
    record exactly as often as the collection does, so a deleteMany removes
    exactly the records the find returns.
  */
  lemma {:induction false} HavingLackingSplit<T(!new), K>(xs: seq<T>, key: T -> K, v: K)
    ensures multiset(Having(xs, key, v)) + multiset(Lacking(xs, key, v)) == multiset(xs)
    ensures |Having(xs, key, v)| + |Lacking(xs, key, v)| == |xs|
  {
    if xs != [] {
      HavingLackingSplit(xs[1..], key, v);
      assert xs == [xs[0]] + xs[1..];
    }
  }

  /** Removing records never breaks a unique index. */
  lemma {:induction false} LackingDistinct<T(!new), K, L>(xs: seq<T>, key: T -> K, v: K, unique: T -> L)
    requires Distinct(xs, unique)
    ensures Distinct(Lacking(xs, key, v), unique)
  {
    if xs != [] {
      var rest := Lacking(xs[1..], key, v);
      LackingDistinct(xs[1..], key, v, unique);
      if key(xs[0]) != v {
        forall j | 0 <= j < |rest| ensures unique(xs[0]) != unique(rest[j]) {
          assert rest[j] in xs[1..];
          var m :| 0 <= m < |xs[1..]| && xs[1..][m] == rest[j];
          assert xs[m + 1] == rest[j];
        }
        var r := [xs[0]] + rest;
        forall i, j | 0 <= i < j < |r| ensures unique(r[i]) != unique(r[j]) {
          if i == 0 {
            assert r[j] == rest[j - 1];
          } else {
            assert r[i] == rest[i - 1] && r[j] == rest[j - 1];
          }
        }
      }
    }
  }

  /** Under a unique index, the records carrying a key value are just the one found. */
  lemma {:induction false} HavingUnique<T(!new), K>(xs: seq<T>, key: T -> K, k: nat)
    requires k < |xs| && Distinct(xs, key)
    ensures Having(xs, key, key(xs[k])) == [xs[k]]
  {
    if k == 0 {
      assert forall x :: x in xs[1..] ==> key(x) != key(xs[0]) by {
        forall x | x in xs[1..] ensures key(x) != key(xs[0]) {
          var m :| 0 <= m < |xs[1..]| && xs[1..][m] == x;
          assert xs[m + 1] == x;
        }
      }
    } else {
      assert Distinct(xs[1..], key) by {
        forall i, j | 0 <= i < j < |xs[1..]| ensures key(xs[1..][i]) != key(xs[1..][j]) {
          assert xs[1..][i] == xs[i + 1] && xs[1..][j] == xs[j + 1];
        }
      }
      assert xs[1..][k - 1] == xs[k];
      HavingUnique(xs[1..], key, k - 1);
      assert key(xs[0]) != key(xs[k]);
    }
  }

  /** The `file` field of each record, in order. */
  function Files<T>(xs: seq<T>, file: T -> Option<Path>): (r: seq<Option<Path>>)
    ensures |r| == |xs|
    ensures forall i :: 0 <= i < |xs| ==> r[i] == file(xs[i])
  {
    seq(|xs|, i requires 0 <= i < |xs| => file(xs[i]))
  }

  predicate AllPresent(files: seq<Option<Path>>) {
    forall i :: 0 <= i < |files| ==> files[i].Some?
  }

  /**
    The paths a loop `fs.unlink(xs[i].file, ...)` over `files` hands to
    fs.unlink: one per element, in order, up to the first undefined file,
    where fs.unlink throws synchronously and the loop is left.
  */
  function UnlinkAttempts(files: seq<Option<Path>>): (r: seq<Path>)
    ensures |r| <= |files|
    ensures forall i :: 0 <= i < |r| ==> files[i] == Some(r[i])
    ensures |r| < |files| ==> files[|r|].None?
    ensures |r| == |files| <==> AllPresent(files)
  {
    if files == [] then []
    else match files[0]
      case None => []
      case Some(p) => [p] + UnlinkAttempts(files[1..])
  }

  /** The contract of UnlinkAttempts determines its result. */
  lemma {:induction false} UnlinkAttemptsUnique(files: seq<Option<Path>>, r: seq<Path>)
    requires |r| <= |files|
    requires forall i :: 0 <= i < |r| ==> files[i] == Some(r[i])
    requires |r| < |files| ==> files[|r|].None?
    ensures r == UnlinkAttempts(files)
  {
    if files != [] && files[0].Some? {
      UnlinkAttemptsUnique(files[1..], r[1..]);
    }
  }

  class Db {
    var users: seq<User>
    var decks: seq<Deck>
    var cards: seq<Card>
    /** The next ObjectId to hand out. */
    var nextId: Id
    /** Every path handed to fs.unlink, in order. Whether the removal succeeds is not modelled. */
    var unlinked: seq<Path>

    /**
      The unique indexes on `_id` and on the user's email, the freshness of
      `nextId`, and a user's reset id and its expiry being set together.
    */
    ghost predicate Valid()
      reads this
    {
      && (forall u :: u in users ==> (u.resetId.Some? <==> u.resetExpiry.Some?))
      && Distinct(users, UserId) && Distinct(users, UserEmail)
      && Distinct(decks, DeckId) && Distinct(cards, CardId)
      && Below(users, UserId, nextId) && Below(decks, DeckId, nextId) && Below(cards, CardId, nextId)
    }

    constructor ()
      ensures Valid()
      ensures users == [] && decks == [] && cards == [] && unlinked == []
    {
      users, decks, cards := [], [], [];
      nextId := 0;
      unlinked := [];
    }

    /** A fresh ObjectId. */
    method NewId() returns (id: Id)
      requires Valid()
      modifies this`nextId
      ensures Valid()
      ensures id == old(nextId) && nextId == id + 1
    {
      id := nextId;
      nextId := nextId + 1;
    }

    /** `User.deleteMany({ key: v })`; `findByIdAndRemove` is the case of the `_id` key. */
    method RemoveUsers(key: User -> Id, v: Id)
      requires Valid()
      modifies this`users
      ensures Valid()
      ensures users == Lacking(old(users), key, v)
      ensures |users| == |old(users)| - |Having(old(users), key, v)|
    {
      HavingLackingSplit(users, key, v);
      LackingDistinct(users, key, v, UserId);
      LackingDistinct(users, key, v, UserEmail);
      users := Lacking(users, key, v);
    }

    /** `Deck.deleteMany({ key: v })`; `findByIdAndRemove` is the case of the `_id` key. */
    method RemoveDecks(key: Deck -> Id, v: Id)
      requires Valid()
      modifies this`decks
      ensures Valid()
      ensures decks == Lacking(old(decks), key, v)
      ensures |decks| == |old(decks)| - |Having(old(decks), key, v)|
    {
      HavingLackingSplit(decks, key, v);
      LackingDistinct(decks, key, v, DeckId);
      decks := Lacking(decks, key, v);
    }

    /** `Card.deleteMany({ key: v })`; `findByIdAndRemove` is the case of the `_id` key. */
    method RemoveCards(key: Card -> Id, v: Id)
      requires Valid()
      modifies this`cards
      ensures Valid()
      ensures cards == Lacking(old(cards), key, v)
      ensures |cards| == |old(cards)| - |Having(old(cards), key, v)|
    {
      HavingLackingSplit(cards, key, v);
      LackingDistinct(cards, key, v, CardId);
      cards := Lacking(cards, key, v);
    }

    /**
      The loop `for (i = 0; i < xs.length; i++) fs.unlink(xs[i].file, ...)`,
      run over the snapshot `files`. `completed` is false when it was left
      by the exception fs.unlink throws for an undefined path.
    */
    method UnlinkEach(files: seq<Option<Path>>) returns (completed: bool)
      requires Valid()
      modifies this`unlinked
      ensures Valid()
      ensures unlinked == old(unlinked) + UnlinkAttempts(files)
      ensures completed <==> AllPresent(files)
    {
      ghost var done: seq<Path> := [];
      var i := 0;
      while i < |files|
        invariant Valid()
        invariant 0 <= i <= |files| && |done| == i
        invariant unlinked == old(unlinked) + done
        invariant forall j :: 0 <= j < i ==> files[j] == Some(done[j])
      {
        match files[i]
        case None =>
          UnlinkAttemptsUnique(files, done);
          return false;
        case Some(p) =>
          unlinked := unlinked + [p];
          done := done + [p];
        i := i + 1;
      }
      UnlinkAttemptsUnique(files, done);
      completed := true;
    }
  }
}
