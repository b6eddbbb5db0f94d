/**
 The review and lookup routes as the service literally evaluates them: `books`,
 `sessions` and each `reviews` table are object literals, so `obj[key]` also finds
 the members inherited from `Object.prototype` (all truthy), and assigning a string
 to `__proto__` is ignored. Module Catalog models the same routes with dictionary
 semantics; the two agree on every request that avoids the inherited names.
 */
module AsWritten {
  import opened Js
  import opened Seqs
  import opened Catalog

  datatype Result =
    | Replied(outcome: Outcome)
    | Builtin   // 200 whose body is an inherited built-in (serialised as nothing or `{}`), not a book
    | Threw     // a TypeError escapes the handler and the framework answers 500

  /** `!sessions[name]` is false. */
  predicate SessionFlag(sessions: map<string, bool>, name: string) {
    match Get(sessions, name)
    case Own(v) => v
    case Inherited => true
    case Absent => false
  }

  /** `!reviews[name]` is false. */
  predicate ReviewFlag(reviews: map<string, Value>, name: string) {
    match Get(reviews, name)
    case Own(v) => Truthy(v)
    case Inherited => true
    case Absent => false
  }

  function GetBook(s: State, isbn: string): Result {
    match Get(s.books, isbn)
    case Own(book) => Replied(Outcome(Reply(Ok, NoMessage, OneBook(book)), s))
    case Inherited => Builtin
    case Absent => Replied(Outcome(BookMissing, s))
  }

  /** An inherited member has no `reviews` property, so `res.json(undefined)` sends an empty 200. */
  function GetReviews(s: State, isbn: string): Result {
    match Get(s.books, isbn)
    case Own(book) => Replied(Outcome(Reply(Ok, NoMessage, ReviewTable(book.reviews)), s))
    case Inherited => Builtin
    case Absent => Replied(Outcome(BookMissing, s))
  }

  function Login(s: State, username: Value, password: Value): Result {
    match FindIndex(s.users, (u: User) => Matches(u, username, password))
    case Some(i) =>
      Replied(Outcome(Reply(Ok, LoginSuccessful, NoPayload),
                      s.(sessions := Assign(s.sessions, s.users[i].username, true))))
    case None =>
      Replied(Outcome(Reply(Unauthorized, InvalidCredentials, NoPayload), s))
  }

  function PutReview(s: State, isbn: string, username: Value, review: Value): Result {
    var name := KeyOf(username);
    if !SessionFlag(s.sessions, name) then Replied(Outcome(NeedLogin, s))
    else match Get(s.books, isbn)
      case Absent => Replied(Outcome(BookMissing, s))
      case Inherited => Threw
      case Own(book) =>
        var book' := book.(reviews := Assign(book.reviews, name, review));
        Replied(Outcome(Reply(Ok, ReviewSaved, ReviewTable(book'.reviews)), s.(books := s.books[isbn := book'])))
  }

  function DeleteReview(s: State, isbn: string, username: Value): Result {
    var name := KeyOf(username);
    if !SessionFlag(s.sessions, name) then Replied(Outcome(NeedLogin, s))
    else match Get(s.books, isbn)
      case Absent => Replied(Outcome(ReviewMissing, s))
      case Inherited => Threw
      case Own(book) =>
        if !ReviewFlag(book.reviews, name) then Replied(Outcome(ReviewMissing, s))
        else
          var book' := book.(reviews := book.reviews - {name});
          Replied(Outcome(Reply(Ok, ReviewDeleted, ReviewTable(book'.reviews)), s.(books := s.books[isbn := book'])))
  }

  function Step(s: State, req: Request): Result {
    match req
    case GetByIsbn(isbn) => GetBook(s, isbn)
    case GetReviews(isbn) => GetReviews(s, isbn)
    case PostLogin(username, password) => Login(s, username, password)
    case PutBookReview(isbn, username, review) => PutReview(s, isbn, username, review)
    case DeleteBookReview(isbn, username) => DeleteReview(s, isbn, username)
    case _ => Replied(Catalog.Step(s, req))
  }

  /** No key the request looks up or assigns is a name inherited from `Object.prototype`. */
  predicate OffPrototype(req: Request) {
    match req
    case GetByIsbn(isbn) => isbn !in ObjectPrototypeKeys
    case GetReviews(isbn) => isbn !in ObjectPrototypeKeys
    case PostLogin(username, _) => KeyOf(username) !in ObjectPrototypeKeys
    case PutBookReview(isbn, username, _) =>
      isbn !in ObjectPrototypeKeys && KeyOf(username) !in ObjectPrototypeKeys
    case DeleteBookReview(isbn, username) =>
      isbn !in ObjectPrototypeKeys && KeyOf(username) !in ObjectPrototypeKeys
    case _ => true
  }

  /** Off the inherited names the literal evaluation and the dictionary model give the same reply and state. */
  lemma AgreesOffPrototype(s: State, req: Request)
    requires OffPrototype(req)
    ensures Step(s, req) == Replied(Catalog.Step(s, req))
  {
  }

  /** Exactly where authorization leaks: a successful update comes from a logged-in caller or from an inherited name nobody logged in as. */
  lemma UpdateAuthorization(s: State, isbn: string, username: Value, review: Value)
    ensures var r := PutReview(s, isbn, username, review);
      r.Replied? && r.outcome.reply.status == Ok <==>
        isbn in s.books &&
        (LoggedIn(s.sessions, KeyOf(username)) ||
         (KeyOf(username) in ObjectPrototypeKeys && KeyOf(username) !in s.sessions))
  {
  }

  /** Counterexample: at start-up, with nobody logged in, "constructor" may write a review. */
  lemma UnauthenticatedUpdateAccepted()
    ensures var r := PutReview(Seed, MartianIsbn, Str("constructor"), Str("x"));
      && r.Replied?
      && r.outcome.reply.status == Ok
      && r.outcome.next.books[MartianIsbn].reviews == map["alice" := Str("Amazing!"), "constructor" := Str("x")]
    ensures Catalog.PutReview(Seed, MartianIsbn, Str("constructor"), Str("x")).reply == NeedLogin
  {
  }

  /** Counterexample: at start-up "toString" is told its (non-existent) review was deleted. */
  lemma PhantomDeleteAccepted()
    ensures DeleteReview(Seed, MartianIsbn, Str("toString")) ==
      Replied(Outcome(Reply(Ok, ReviewDeleted, ReviewTable(map["alice" := Str("Amazing!")])), Seed))
    ensures Catalog.DeleteReview(Seed, MartianIsbn, Str("toString")).reply == NeedLogin
  {
    var book := Seed.books[MartianIsbn];
    assert book.reviews - {"toString"} == book.reviews;
    assert Seed.books[MartianIsbn := book] == Seed.books;
  }

  /** Counterexample: the ISBN "constructor" is answered with 200, and a logged-in update on it throws. */
  lemma InheritedIsbnAccepted()
    ensures GetBook(Seed, "constructor") == Builtin
    ensures Catalog.BookByIsbn(Seed, "constructor") == BookMissing
    ensures var s := Seed.(users := [User("bob", "pw")], sessions := map["bob" := true]);
      && PutReview(s, "constructor", Str("bob"), Str("x")) == Threw
      && Catalog.PutReview(s, "constructor", Str("bob"), Str("x")).reply == BookMissing
  {
  }
}
