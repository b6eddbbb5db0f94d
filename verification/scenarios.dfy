/**
 Concrete request sequences against the start-up tables: the seeded lookups, a
 case-insensitive author search, an unauthenticated update, and a user who
 registers, logs in, reviews and deletes the review twice.
 */
module Scenarios {
  import opened Js
  import opened Catalog
  import Text
  import Seqs

  const Martian: Book := Seed.books[MartianIsbn]
  const Chamber: Book := Seed.books[ChamberIsbn]

  lemma SeedLookups()
    ensures BookByIsbn(Seed, MartianIsbn) == Reply(Ok, NoMessage, OneBook(Martian))
    ensures Martian.title == "The Martian" && Martian.author == "Andy Weir"
    ensures BookByIsbn(Seed, "unknown-isbn") == BookMissing
  {
  }

  /** Searching for "J.K. Rowling" in any letter case finds exactly the seeded Harry Potter book. */
  lemma SeedAuthorSearch(author: string)
    requires Text.Lower(author) == Text.Lower("J.K. Rowling")
    ensures BooksByAuthor(Seed, author).payload.list == [Chamber]
  {
    var query := Text.Lower(author);
    var keep := (b: Book) => Text.Lower(b.author) == query;
    assert Seed.order[1..] == [ChamberIsbn];
    assert Listing(Seed.books, [ChamberIsbn]) == [Chamber] + Listing(Seed.books, []);
    assert Listing(Seed.books, Seed.order) == [Martian, Chamber];
    assert Text.Lower(Chamber.author) == query;
    assert Text.Lower(Martian.author)[0] != query[0];
    assert [Martian, Chamber][1..] == [Chamber];
    assert Seqs.Filter([Chamber], keep) == [Chamber] + Seqs.Filter([], keep);
    assert Seqs.Filter([Martian, Chamber], keep) == [Chamber];
  }

  /** The all-lower-case spelling of the author's name finds the same book. */
  lemma SeedAuthorLowerCase()
    ensures BooksByAuthor(Seed, "j.k. rowling").payload.list == [Chamber]
  {
    assert Text.Lower("j.k. rowling") == Text.Lower("J.K. Rowling");
    SeedAuthorSearch("j.k. rowling");
  }

  /** The all-upper-case spelling of the author's name finds the same book. */
  lemma SeedAuthorUpperCase()
    ensures BooksByAuthor(Seed, "J.K. ROWLING").payload.list == [Chamber]
  {
    var q := "J.K. ROWLING";
    assert Text.Lower(q) == Text.Lower("J.K. Rowling");
    SeedAuthorSearch(q);
  }

  /** An update by a user who never logged in is refused and the reviews stay as they were. */
  lemma SeedUpdateNeedsLogin()
    ensures PutReview(Seed, MartianIsbn, Str("alice"), Str("Great read")) == Outcome(NeedLogin, Seed)
  {
  }

  /** Register, log in, review, delete, delete again. */
  lemma ReviewLifecycle()
    ensures var s1 := Register(Seed, Str("alice"), Str("secret")).next;
      var s2 := Login(s1, Str("alice"), Str("secret")).next;
      var s3 := PutReview(s2, ChamberIsbn, Str("alice"), Str("Great read")).next;
      var d1 := DeleteReview(s3, ChamberIsbn, Str("alice"));
      && ReviewsOf(s3, ChamberIsbn).payload.reviews == map["alice" := Str("Great read")]
      && d1.reply.status == Ok
      && d1.next.books[ChamberIsbn].reviews == map[]
      && DeleteReview(d1.next, ChamberIsbn, Str("alice")).reply == ReviewMissing
  {
  }
}
