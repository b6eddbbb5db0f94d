# Book catalog service — a Dafny model

The service keeps three in-memory tables:

- `books` maps an ISBN to a book. A book has an ISBN, a title, an author and a `reviews` table that maps a username to review text. Two books are seeded at start-up.
- `users` is a sequence of username/password records.
- `sessions` maps a username to a "logged in" flag.

Nine HTTP routes work on these tables. Five read them: list all books, get a book by ISBN, search by author, search by title, and get a book's reviews. Four change them: register, log in, add or update a review, and delete a review.

This project models each route as a pure transition from a state and a request to a reply and a next state (`Catalog.Step`). It also models serving a sequence of requests (`Catalog.Run`). It then proves:

- what each route answers;
- which table entries each route changes, and that it changes nothing else;
- the invariants every reachable state keeps.

Files:

- `js.dfy` (module `Js`): the JavaScript semantics the handlers depend on.
  - A body field is either missing (`undefined`) or a string.
  - A field is truthy only when it is a non-empty string.
  - A missing username used as a key becomes the key `"undefined"`.
  - Object literals inherit members from `Object.prototype`.
- `seqs.dfy` (module `Seqs`): `Array.prototype.find` (first match), the order-keeping `filter`, a subsequence predicate, and the map frame predicates `Overwrites` and `Removes`.
- `text.dfy` (module `Text`): ASCII `toLowerCase`, and `includes` together with its characterisation as "occurs at some position".
- `catalog.dfy` (module `Catalog`): the tables, the start-up state `Seed`, the nine handlers, `Step` and `Run`.
- `invariants.dfy` (module `Invariants`): the whole-state invariant `Valid`, its preservation, and the history of login flags.
- `properties.dfy` (module `Properties`): search exactness, registration, login, idempotence of updates, delete after put, and delete twice.
- `as_written.dfy` (module `AsWritten`): the lookup and review routes as object-literal property reads, and where they differ from the dictionary model (see Findings).
- `scenarios.dfy` (module `Scenarios`): concrete request sequences against the seed.

These quirks of the code are kept on purpose:

- **Empty fields.** `!username` and `!password` reject the empty string the same way as a missing field.
- **401 before 404.** The login check runs before the book check, so a caller who is not logged in gets 401 even for an unknown ISBN.
- **Falsy reviews.** A review stored as `""`, or stored with no text, counts as absent. A DELETE then answers "Review not found" and the entry stays in the table.
- **DELETE message.** A DELETE on an unknown ISBN answers "Review not found", not "Book not found".
- **Result order.** The searches return books in key insertion order, the order `Object.values` uses. The ISBN keys are too large to be array indices, so they are visited in insertion order.

## Model

| member | source | states |
|---|---|---|
| Catalog.BookByIsbn | index.js:37-41 | answers 200 with the stored book exactly when the ISBN key is present, otherwise 404 "Book not found" |
| Catalog.ReviewsOf | index.js:60-64 | answers 200 with that book's review table exactly when the ISBN key is present, otherwise 404 "Book not found" |
| Catalog.BooksByAuthor | index.js:44-49 | always 200; a book is in the result iff it is listed and its lower-cased author equals the lower-cased query; the result keeps listing order |
| Catalog.BooksByTitle | index.js:52-57 | always 200; a book is in the result iff it is listed and its lower-cased title includes the lower-cased query; the result keeps listing order |
| Catalog.Register | index.js:67-73 | 200 iff both fields are non-empty strings and the name is new; on success the reply is "User registered successfully" and exactly one record is appended; otherwise 400 ("Missing username or password" takes precedence over "User already exists") and no table changes |
| Catalog.Login | index.js:76-85 | 200 iff some stored record equals both fields; on success the reply is "Login successful" and only `sessions[username]` becomes true; otherwise 401 "Invalid credentials" and no table changes |
| Catalog.PutReview | index.js:90-97 | 401 whenever the caller's flag is not true, even for an unknown ISBN; otherwise 404 iff the ISBN is unknown; on success only the caller's review of that book is set and the reply carries the updated review table |
| Catalog.DeleteReview | index.js:100-107 | 401 whenever the caller's flag is not true; otherwise 404 "Review not found" unless the book holds a non-empty review by the caller; on success exactly that key is removed |
| Seqs.FindIndex | index.js:78 | `find` returns the first element satisfying the condition, and none exactly when no element does |
| Seqs.Filter | index.js:45-47 | `filter` keeps exactly the elements satisfying the condition, each as many times as it occurs in the input, in their original order |
| Text.LowerIsCanonical | index.js:46 | lower-casing keeps the length, leaves no upper-case ASCII letter and is idempotent |
| Text.LowerIgnoresCase | index.js:46 | two strings lower-case to the same string if and only if they have the same length and, at every position, the same character up to the case of an ASCII letter |
| Text.IncludesIffOccurs | index.js:54 | `includes` is true exactly when the needle occurs at some position of the text |
| Properties.ListingFollowsOrder | index.js:45 | `Object.values` yields one book per key, in key insertion order |
| Properties.ListingIsAllBooks | index.js:45 | in a valid state `Object.values` lists every book of the table and nothing else |
| Properties.AuthorSearchExact | index.js:44-49 | in a valid state the author search returns exactly the table's books whose author matches case-insensitively, in iteration order, and never fails |
| Properties.TitleSearchExact | index.js:52-57 | in a valid state the title search returns exactly the books whose lower-cased title contains the lower-cased query at some position, in iteration order |
| Properties.LookupsMatchKey | index.js:11-24 | a book found under an ISBN carries that ISBN, and the review route finds a book exactly when the book route does, answering with that book's reviews |
| Properties.RegisterTwice | index.js:69-71 | registering a name twice fails the second time with 400 and "User already exists" when a password is given, and the state is left unchanged with usernames still unique |
| Properties.LoginIffStoredPair | index.js:76-85 | in a valid state login succeeds exactly for a (username, password) pair stored by registration |
| Properties.MutationNeedsLogin | index.js:90-107 | a review changes only when the caller's session flag is true, and in a valid state the caller is then a registered user |
| Properties.PutReviewIdempotent | index.js:95 | repeating an update gives the same reply and state as doing it once |
| Properties.PutThenDelete | index.js:95-105 | deleting a review just written with non-empty text succeeds and restores the review table minus the caller's key; if the caller had no entry before, the whole state is restored |
| Properties.DeleteTwice | index.js:104-105 | after a successful delete, the identical delete answers 404 "Review not found" and changes nothing |
| Properties.FalsyReviewIsPermanent | index.js:104 | an empty or text-less review stays in the table and cannot be deleted |
| Invariants.SeedValid | index.js:11-27 | the start-up tables satisfy the invariant: keys match `isbn` fields, there are no users and no flags |
| Invariants.StepGrows | index.js:32-107 | for the router `Catalog.Step`, which dispatches each request to its handler: no route adds or removes a book, or changes an ISBN, title or author; users are only appended; no flag is ever cleared |
| Invariants.QueriesAreReadOnly | index.js:32-64 | the five GET routes change nothing; GET /books (`Catalog.AllBooks`) always answers 200 with the whole book table; the other reads answer 200 or 404 "Book not found" |
| Invariants.StepPreservesValid | index.js:32-107 | every route keeps the invariant: usernames are unique and non-empty, and every true flag belongs to a registered user |
| Invariants.RegisterPreservesValid | index.js:67-73 | registration keeps the invariant: a record is appended only for a new, non-empty name with a non-empty password |
| Invariants.LoginPreservesValid | index.js:76-85 | login keeps the invariant: the flag it raises belongs to the registered user whose record matched |
| Invariants.ReviewsPreserveValid | index.js:90-107 | a change confined to reviews, which leaves users, flags, key order and the other book fields alone, keeps the invariant |
| Invariants.RunKeepsCatalog | index.js:32-107 | the Step facts also hold for `Catalog.Run`, which serves any sequence of requests one after another |
| Invariants.RunPreservesValid | index.js:32-107 | the invariant holds across any sequence of requests |
| Invariants.ReachableStates | index.js:11-27 | every state reachable from start-up is valid and still holds exactly the two seeded ISBNs with their seeded titles and authors |
| Invariants.FlagsComeFromLogins | index.js:76-85 | any flag raised while serving a sequence of requests was raised by one of those requests: a login of that name which, in the state just before it, matched a stored record and answered 200 |
| Js.GetOwnOffPrototype | index.js:93 | for keys that are not `Object.prototype` names, property reads and writes behave as dictionary lookups and updates |
| AsWritten.AgreesOffPrototype | index.js:37-107 | on requests whose keys avoid the inherited names, the literal object-property evaluation (`AsWritten.Step`, dispatching to `AsWritten.GetBook`, `GetReviews`, `Login`, `PutReview` and `DeleteReview`) and the dictionary model `Catalog.Step` give the same reply and state |
| AsWritten.UpdateAuthorization | index.js:93-95 | as written (`AsWritten.PutReview`), an update succeeds exactly for a known book and either a logged-in caller or an inherited name that nobody logged in as |
| AsWritten.UnauthenticatedUpdateAccepted | index.js:93-96 | counterexample: at start-up, the username "constructor" stores a review without logging in |
| AsWritten.PhantomDeleteAccepted | index.js:103-106 | counterexample: at start-up, the username "toString" is told a review was deleted |
| AsWritten.InheritedIsbnAccepted | index.js:38-40 | counterexample: the ISBN "constructor" is answered with 200, and an update on it by a logged-in user throws |
| Scenarios.SeedLookups | index.js:11-41 | the seeded "The Martian" is found under 9780143127741, and "unknown-isbn" gets 404 |
| Scenarios.SeedAuthorSearch | index.js:44-49 | searching for any string that lower-cases to the same string as "J.K. Rowling" returns exactly the seeded Harry Potter book |
| Scenarios.SeedAuthorLowerCase | index.js:44-49 | the spelling "j.k. rowling" meets that condition and returns exactly the Harry Potter book |
| Scenarios.SeedAuthorUpperCase | index.js:44-49 | the spelling "J.K. ROWLING" meets that condition and returns exactly the Harry Potter book |
| Scenarios.SeedUpdateNeedsLogin | index.js:93 | an update by a user who never logged in gets 401 and changes nothing |
| Scenarios.ReviewLifecycle | index.js:67-107 | register, log in and review: the review is readable; the first delete removes it; the second delete answers 404 |

## Left out

- HTTP wiring is not modelled: Express routing, body parsing, JSON serialisation and response formatting (index.js:1-8). Replies are an abstract status (200, 400, 401, 404), a message constant and a payload.
- The axios demonstration client functions and the calls made at start-up (index.js:109-154) are not modelled: they are network I/O into a library outside this model.
- `app.listen` and the fixed port (index.js:146) are not modelled.
- Concurrent interleaving of requests is not modelled. The handlers run to completion one at a time, and nothing in them relies on more.
- Text.LowerIsCanonical: `toLowerCase` is modelled for ASCII letters only. Full Unicode case mapping, which can change a string's length, is not modelled.
- Body fields holding JSON numbers, booleans, `null`, objects or arrays are not modelled. A field is either missing or a string.
- The main model (module Catalog) treats the three tables as dictionaries. The inherited-member behaviour of the object literals is modelled only in module AsWritten, for the lookup and review routes (see Findings).

## Findings

| source | as written | input that shows it | evidently intended | confidence | as-written member | corrected member |
|---|---|---|---|---|---|---|
| index.js:93 | `!sessions[username]` also reads members inherited from `Object.prototype`, which are truthy | at start-up with nobody logged in: PUT /books/review/9780143127741 with body {"username":"constructor","review":"x"} answers 200 and stores the review | 401 "Login required" for any name that never logged in | high (not executed) | AsWritten.UnauthenticatedUpdateAccepted | Properties.MutationNeedsLogin |
| index.js:103-104 | on DELETE, both the session check and `!book.reviews[username]` read inherited members | at start-up: DELETE /books/review/9780143127741 with body {"username":"toString"} answers 200 "Review deleted", although nobody logged in and no such review exists | 401 "Login required" (and 404 "Review not found" for a logged-in caller with no review) | high (not executed) | AsWritten.PhantomDeleteAccepted | Catalog.DeleteReview |
| index.js:38-40 | `books[isbn]` finds inherited members for ISBNs such as "constructor" | GET /books/isbn/constructor answers 200 with an empty body. PUT /books/review/constructor by a logged-in user throws a TypeError, which becomes a 500 | 404 "Book not found" | high (not executed) | AsWritten.InheritedIsbnAccepted | Catalog.BookByIsbn |
