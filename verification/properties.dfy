/**
 Properties of the individual routes that relate several calls or lean on the
 whole-state invariants: searches return exactly the matching books in iteration
 order, registration keeps usernames unique, login matches stored credentials,
 review updates are idempotent and undone by a delete, and only a logged-in,
 registered user changes a review.
 */
module Properties {
  import opened Js
  import opened Seqs
  import opened Catalog
  import opened Invariants
  import Text

  // ---------- iteration order and searches ----------

  /** With every listed key present, `Object.values` yields one book per key, in key order. */
  lemma {:induction false} ListingFollowsOrder(books: map<string, Book>, order: seq<string>)
    requires forall k :: k in order ==> k in books
    ensures |Listing(books, order)| == |order|
    ensures forall i :: 0 <= i < |order| ==> Listing(books, order)[i] == books[order[i]]
    decreases |order|
  {
    if |order| > 0 {
      ListingFollowsOrder(books, order[1..]);
      var rest := Listing(books, order[1..]);
      assert Listing(books, order) == [books[order[0]]] + rest;
      forall i | 1 <= i < |order| ensures Listing(books, order)[i] == books[order[i]] {
        assert order[1..][i - 1] == order[i];
      }
    }
  }

  /** In a valid state `Object.values` lists every book of the table and nothing else. */
  lemma ListingIsAllBooks(s: State)
    requires Valid(s)
    ensures forall b :: b in Listing(s.books, s.order) <==> b in s.books.Values
  {
    ListingFollowsOrder(s.books, s.order);
    var l := Listing(s.books, s.order);
    forall b | b in s.books.Values ensures b in l {
      var k :| k in s.books && s.books[k] == b;
      var i :| 0 <= i < |s.order| && s.order[i] == k;
      assert l[i] == b;
    }
  }

  /** The author search never fails and returns exactly the books whose lower-cased author equals the lower-cased query, in iteration order. */
  lemma AuthorSearchExact(s: State, author: string)
    requires Valid(s)
    ensures var r := BooksByAuthor(s, author);
      && r.status == Ok
      && (forall b :: b in r.payload.list <==> b in s.books.Values && Text.Lower(b.author) == Text.Lower(author))
      && Subseq(r.payload.list, Listing(s.books, s.order))
  {
    ListingIsAllBooks(s);
  }

  /** The title search returns exactly the books whose lower-cased title contains the lower-cased query. */
  lemma TitleSearchExact(s: State, title: string)
    requires Valid(s)
    ensures var r := BooksByTitle(s, title);
      && r.status == Ok
      && (forall b :: b in r.payload.list <==>
            b in s.books.Values && exists i :: Text.OccursAt(Text.Lower(b.title), Text.Lower(title), i))
      && Subseq(r.payload.list, Listing(s.books, s.order))
  {
    ListingIsAllBooks(s);
    forall b: Book {
      Text.IncludesIffOccurs(Text.Lower(b.title), Text.Lower(title));
    }
  }

  /** Lookups by ISBN hand back the book filed under that key, with its own `isbn` equal to the key. */
  lemma LookupsMatchKey(s: State, isbn: string)
    requires Valid(s)
    ensures BookByIsbn(s, isbn).status == Ok ==> BookByIsbn(s, isbn).payload.book.isbn == isbn
    ensures ReviewsOf(s, isbn).status == Ok <==> BookByIsbn(s, isbn).status == Ok
    ensures ReviewsOf(s, isbn).status == Ok ==>
      ReviewsOf(s, isbn).payload.reviews == BookByIsbn(s, isbn).payload.book.reviews
  {
  }

  // ---------- registration and login ----------

  /** Registering a name a second time is refused and leaves the user table with one entry for it. */
  lemma RegisterTwice(s: State, username: Value, password: Value, password2: Value)
    requires Valid(s)
    requires Register(s, username, password).reply.status == Ok
    ensures var t := Register(s, username, password).next;
      && Register(t, username, password2).reply.status == BadRequest
      && Register(t, username, password2).next == t
      && (Truthy(password2) ==> Register(t, username, password2).reply.message == UserExists)
      && UniqueUsernames(t.users)
  {
    var t := Register(s, username, password).next;
    StepPreservesValid(s, PostRegister(username, password));
    assert t.users[|s.users|].username == username.s;
    assert IsRegistered(t.users, username.s);
  }

  /** In a valid state login succeeds exactly for the stored (username, password) pair. */
  lemma LoginIffStoredPair(s: State, name: string, password: string)
    requires Valid(s)
    ensures Login(s, Str(name), Str(password)).reply.status == Ok <==> User(name, password) in s.users
  {
  }

  // ---------- reviews ----------

  /** A review changes only for a logged-in caller, and in a valid state that caller is a registered user. */
  lemma MutationNeedsLogin(s: State, req: Request)
    requires Valid(s)
    requires req.PutBookReview? || req.DeleteBookReview?
    requires Step(s, req).next != s
    ensures LoggedIn(s.sessions, KeyOf(req.username))
    ensures IsRegistered(s.users, KeyOf(req.username))
  {
  }

  /** Repeating a review update gives the same reply and the same state as doing it once. */
  lemma PutReviewIdempotent(s: State, isbn: string, username: Value, review: Value)
    ensures var o := PutReview(s, isbn, username, review);
      PutReview(o.next, isbn, username, review) == o
  {
    var o := PutReview(s, isbn, username, review);
    if o.reply.status == Ok {
      var r := s.books[isbn].reviews;
      var name := KeyOf(username);
      assert r[name := review][name := review] == r[name := review];
    }
  }

  /** Deleting a review just written with non-empty text succeeds and leaves the reviews as they were minus the caller's entry. */
  lemma PutThenDelete(s: State, isbn: string, username: Value, text: string)
    requires text != ""
    requires PutReview(s, isbn, username, Str(text)).reply.status == Ok
    ensures var t := PutReview(s, isbn, username, Str(text)).next;
      var o := DeleteReview(t, isbn, username);
      && o.reply.status == Ok
      && o.next.books[isbn].reviews == s.books[isbn].reviews - {KeyOf(username)}
      && (KeyOf(username) !in s.books[isbn].reviews ==> o.next == s)
  {
    var name := KeyOf(username);
    var r := s.books[isbn].reviews;
    assert r[name := Str(text)] - {name} == r - {name};
    if name !in r {
      assert r - {name} == r;
    }
  }

  /** A second identical delete finds nothing and changes nothing. */
  lemma DeleteTwice(s: State, isbn: string, username: Value)
    requires DeleteReview(s, isbn, username).reply.status == Ok
    ensures var t := DeleteReview(s, isbn, username).next;
      DeleteReview(t, isbn, username) == Outcome(ReviewMissing, t)
  {
  }

  /** A review stored as "" or without text counts as absent: it cannot be deleted and stays in the table. */
  lemma FalsyReviewIsPermanent(s: State, isbn: string, username: Value, review: Value)
    requires !Truthy(review)
    requires PutReview(s, isbn, username, review).reply.status == Ok
    ensures var t := PutReview(s, isbn, username, review).next;
      && KeyOf(username) in t.books[isbn].reviews
      && DeleteReview(t, isbn, username) == Outcome(ReviewMissing, t)
  {
  }
}
