/**
 The book-catalog service: three in-memory tables (books by ISBN, registered users,
 login flags by username) and the nine route handlers, each a pure transition from
 a state and a request to a reply and the next state.

 Tables are dictionaries: a key is present or it is not. The service itself keeps
 them in plain object literals, which also answer for the names inherited from
 `Object.prototype`; module AsWritten models that and shows where it matters.
 */
module Catalog {
  import opened Js
  import opened Seqs
  import Text

  datatype Book = Book(isbn: string, title: string, author: string, reviews: map<string, Value>)

  datatype User = User(username: string, password: string)

  /** `order` is the insertion order of the ISBN keys, the order `Object.values` visits them in. */
  datatype State = State(
    books: map<string, Book>,
    order: seq<string>,
    users: seq<User>,
    sessions: map<string, bool>)

  /** HTTP status classes the handlers answer with (200, 400, 401, 404). */
  datatype Status = Ok | BadRequest | Unauthorized | NotFound

  /** The fixed `message` texts of the JSON replies. */
  datatype Message =
    | NoMessage            // the reply body is data only
    | BookNotFound         // "Book not found"
    | ReviewNotFound       // "Review not found"
    | MissingCredentials   // "Missing username or password"
    | UserExists           // "User already exists"
    | UserRegistered       // "User registered successfully"
    | LoginSuccessful      // "Login successful"
    | InvalidCredentials   // "Invalid credentials"
    | LoginRequired        // "Login required"
    | ReviewSaved          // "Review added/updated"
    | ReviewDeleted        // "Review deleted"

  datatype Payload =
    | NoPayload
    | BookTable(catalog: map<string, Book>)
    | OneBook(book: Book)
    | BookList(list: seq<Book>)
    | ReviewTable(reviews: map<string, Value>)

  datatype Reply = Reply(status: Status, message: Message, payload: Payload)

  datatype Outcome = Outcome(reply: Reply, next: State)

  datatype Request =
    | GetBooks
    | GetByIsbn(isbn: string)
    | GetByAuthor(author: string)
    | GetByTitle(title: string)
    | GetReviews(isbn: string)
    | PostRegister(username: Value, password: Value)
    | PostLogin(username: Value, password: Value)
    | PutBookReview(isbn: string, username: Value, review: Value)
    | DeleteBookReview(isbn: string, username: Value)

  const MartianIsbn: string := "9780143127741"
  const ChamberIsbn: string := "9780439064873"

  /** The tables at start-up: two books, no users, nobody logged in. */
  const Seed: State := State(
    map[
      MartianIsbn := Book(MartianIsbn, "The Martian", "Andy Weir", map["alice" := Str("Amazing!")]),
      ChamberIsbn := Book(ChamberIsbn, "Harry Potter and the Chamber of Secrets", "J.K. Rowling", map[])
    ],
    [MartianIsbn, ChamberIsbn],
    [],
    map[])

  const BookMissing: Reply := Reply(NotFound, BookNotFound, NoPayload)
  const ReviewMissing: Reply := Reply(NotFound, ReviewNotFound, NoPayload)
  const NeedLogin: Reply := Reply(Unauthorized, LoginRequired, NoPayload)

  /** `sessions[name]` is true. */
  predicate LoggedIn(sessions: map<string, bool>, name: string) {
    name in sessions && sessions[name]
  }

  predicate IsRegistered(users: seq<User>, name: string) {
    exists i :: 0 <= i < |users| && users[i].username == name
  }

  /** The `find` condition of the login route: both body fields equal the stored strings. */
  predicate Matches(u: User, username: Value, password: Value) {
    Str(u.username) == username && Str(u.password) == password
  }

  /** `Object.values(books)`: the books in key insertion order. */
  function Listing(books: map<string, Book>, order: seq<string>): seq<Book> {
    if |order| == 0 then []
    else (if order[0] in books then [books[order[0]]] else []) + Listing(books, order[1..])
  }

  // ---------- queries ----------

  function AllBooks(s: State): Reply {
    Reply(Ok, NoMessage, BookTable(s.books))
  }

  function BookByIsbn(s: State, isbn: string): (r: Reply)
    ensures r.status == Ok <==> isbn in s.books
    ensures r.status == Ok ==> r.payload == OneBook(s.books[isbn])
    ensures r.status != Ok ==> r == BookMissing
  {
    if isbn in s.books then Reply(Ok, NoMessage, OneBook(s.books[isbn])) else BookMissing
  }

  function BooksByAuthor(s: State, author: string): (r: Reply)
    ensures r.status == Ok && r.payload.BookList?
    ensures forall b :: b in r.payload.list <==>
      b in Listing(s.books, s.order) && Text.Lower(b.author) == Text.Lower(author)
    ensures Subseq(r.payload.list, Listing(s.books, s.order))
  {
    var query := Text.Lower(author);
    Reply(Ok, NoMessage, BookList(Filter(Listing(s.books, s.order), (b: Book) => Text.Lower(b.author) == query)))
  }

  function BooksByTitle(s: State, title: string): (r: Reply)
    ensures r.status == Ok && r.payload.BookList?
    ensures forall b :: b in r.payload.list <==>
      b in Listing(s.books, s.order) && Text.Includes(Text.Lower(b.title), Text.Lower(title))
    ensures Subseq(r.payload.list, Listing(s.books, s.order))
  {
    var query := Text.Lower(title);
    Reply(Ok, NoMessage, BookList(Filter(Listing(s.books, s.order), (b: Book) => Text.Includes(Text.Lower(b.title), query))))
  }

  function ReviewsOf(s: State, isbn: string): (r: Reply)
    ensures r.status == Ok <==> isbn in s.books
    ensures r.status == Ok ==> r.payload == ReviewTable(s.books[isbn].reviews)
    ensures r.status != Ok ==> r == BookMissing
  {
    if isbn in s.books then Reply(Ok, NoMessage, ReviewTable(s.books[isbn].reviews)) else BookMissing
  }

  // ---------- registration and login ----------

  function Register(s: State, username: Value, password: Value): (o: Outcome)
    ensures o.reply.status == Ok <==>
      Truthy(username) && Truthy(password) && !IsRegistered(s.users, username.s)
    ensures !Truthy(username) || !Truthy(password) ==> o.reply.message == MissingCredentials
    ensures Truthy(username) && Truthy(password) && IsRegistered(s.users, username.s) ==>
      o.reply.message == UserExists
    ensures o.reply.status != Ok ==> o.reply.status == BadRequest && o.next == s
    ensures o.reply.status == Ok ==>
      && o.reply == Reply(Ok, UserRegistered, NoPayload)
      && o.next == s.(users := s.users + [User(username.s, password.s)])
  {
    if !Truthy(username) || !Truthy(password) then
      Outcome(Reply(BadRequest, MissingCredentials, NoPayload), s)
    else match FindIndex(s.users, (u: User) => Str(u.username) == username)
      case Some(_) => Outcome(Reply(BadRequest, UserExists, NoPayload), s)
      case None =>
        Outcome(Reply(Ok, UserRegistered, NoPayload), s.(users := s.users + [User(username.s, password.s)]))
  }

  function Login(s: State, username: Value, password: Value): (o: Outcome)
    ensures o.reply.status == Ok <==> exists i :: 0 <= i < |s.users| && Matches(s.users[i], username, password)
    ensures o.reply.status == Ok ==>
      && o.reply == Reply(Ok, LoginSuccessful, NoPayload)
      && username.Str? && o.next == s.(sessions := s.sessions[username.s := true])
    ensures o.reply.status != Ok ==> o.reply == Reply(Unauthorized, InvalidCredentials, NoPayload) && o.next == s
  {
    match FindIndex(s.users, (u: User) => Matches(u, username, password))
    case Some(i) =>
      Outcome(Reply(Ok, LoginSuccessful, NoPayload), s.(sessions := s.sessions[s.users[i].username := true]))
    case None =>
      Outcome(Reply(Unauthorized, InvalidCredentials, NoPayload), s)
  }

  // ---------- review mutation ----------

  /** `s'` is `s` with only the review of `name` on book `isbn` set to `review`. */
  ghost predicate ReviewWritten(s: State, s': State, isbn: string, name: string, review: Value) {
    && s'.users == s.users && s'.sessions == s.sessions && s'.order == s.order
    && isbn in s.books && s'.books.Keys == s.books.Keys
    && (forall k :: k in s.books && k != isbn ==> s'.books[k] == s.books[k])
    && s'.books[isbn].(reviews := s.books[isbn].reviews) == s.books[isbn]
    && Overwrites(s.books[isbn].reviews, s'.books[isbn].reviews, name, review)
  }

  /** `s'` is `s` with only the review of `name` on book `isbn` removed. */
  ghost predicate ReviewErased(s: State, s': State, isbn: string, name: string) {
    && s'.users == s.users && s'.sessions == s.sessions && s'.order == s.order
    && isbn in s.books && s'.books.Keys == s.books.Keys
    && (forall k :: k in s.books && k != isbn ==> s'.books[k] == s.books[k])
    && s'.books[isbn].(reviews := s.books[isbn].reviews) == s.books[isbn]
    && Removes(s.books[isbn].reviews, s'.books[isbn].reviews, name)
  }

  function PutReview(s: State, isbn: string, username: Value, review: Value): (o: Outcome)
    ensures !LoggedIn(s.sessions, KeyOf(username)) ==> o.reply == NeedLogin && o.next == s
    ensures LoggedIn(s.sessions, KeyOf(username)) && isbn !in s.books ==> o.reply == BookMissing && o.next == s
    ensures o.reply.status == Ok <==> LoggedIn(s.sessions, KeyOf(username)) && isbn in s.books
    ensures o.reply.status == Ok ==>
      && o.reply.message == ReviewSaved
      && ReviewWritten(s, o.next, isbn, KeyOf(username), review)
      && o.reply.payload == ReviewTable(o.next.books[isbn].reviews)
  {
    var name := KeyOf(username);
    if !LoggedIn(s.sessions, name) then Outcome(NeedLogin, s)
    else if isbn !in s.books then Outcome(BookMissing, s)
    else
      var book := s.books[isbn];
      var book' := book.(reviews := book.reviews[name := review]);
      Outcome(Reply(Ok, ReviewSaved, ReviewTable(book'.reviews)), s.(books := s.books[isbn := book']))
  }

  /** There is a truthy review by `name` on book `isbn`. */
  predicate HasReview(s: State, isbn: string, name: string) {
    isbn in s.books && name in s.books[isbn].reviews && Truthy(s.books[isbn].reviews[name])
  }

  function DeleteReview(s: State, isbn: string, username: Value): (o: Outcome)
    ensures !LoggedIn(s.sessions, KeyOf(username)) ==> o.reply == NeedLogin && o.next == s
    ensures LoggedIn(s.sessions, KeyOf(username)) && !HasReview(s, isbn, KeyOf(username)) ==>
      o.reply == ReviewMissing && o.next == s
    ensures o.reply.status == Ok <==> LoggedIn(s.sessions, KeyOf(username)) && HasReview(s, isbn, KeyOf(username))
    ensures o.reply.status == Ok ==>
      && o.reply.message == ReviewDeleted
      && ReviewErased(s, o.next, isbn, KeyOf(username))
      && o.reply.payload == ReviewTable(o.next.books[isbn].reviews)
  {
    var name := KeyOf(username);
    if !LoggedIn(s.sessions, name) then Outcome(NeedLogin, s)
    else if isbn !in s.books || name !in s.books[isbn].reviews || !Truthy(s.books[isbn].reviews[name]) then
      Outcome(ReviewMissing, s)
    else
      var book := s.books[isbn];
      var book' := book.(reviews := book.reviews - {name});
      Outcome(Reply(Ok, ReviewDeleted, ReviewTable(book'.reviews)), s.(books := s.books[isbn := book']))
  }

  // ---------- dispatch ----------

  predicate IsQuery(req: Request) {
    req.GetBooks? || req.GetByIsbn? || req.GetByAuthor? || req.GetByTitle? || req.GetReviews?
  }

  function Step(s: State, req: Request): Outcome {
    match req
    case GetBooks => Outcome(AllBooks(s), s)
    case GetByIsbn(isbn) => Outcome(BookByIsbn(s, isbn), s)
    case GetByAuthor(author) => Outcome(BooksByAuthor(s, author), s)
    case GetByTitle(title) => Outcome(BooksByTitle(s, title), s)
    case GetReviews(isbn) => Outcome(ReviewsOf(s, isbn), s)
    case PostRegister(username, password) => Register(s, username, password)
    case PostLogin(username, password) => Login(s, username, password)
    case PutBookReview(isbn, username, review) => PutReview(s, isbn, username, review)
    case DeleteBookReview(isbn, username) => DeleteReview(s, isbn, username)
  }

  /** The state after serving `reqs` one after another. */
  function Run(s: State, reqs: seq<Request>): State
    decreases |reqs|
  {
    if |reqs| == 0 then s else Run(Step(s, reqs[0]).next, reqs[1..])
  }
}
