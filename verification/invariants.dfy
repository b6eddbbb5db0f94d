/**
 Whole-state invariants of the catalog service and how every request keeps them:
 the book keys and their order never change, each book's `isbn` matches its key,
 usernames stay unique and non-empty, login flags are only ever true, only grow,
 and belong to registered users who logged in with matching credentials.
 */
module Invariants {
  import opened Js
  import opened Catalog

  ghost predicate UniqueUsernames(users: seq<User>) {
    forall i, j :: 0 <= i < j < |users| ==> users[i].username != users[j].username
  }

  ghost predicate Valid(s: State) {
    && (forall k :: k in s.books <==> k in s.order)
    && (forall i, j :: 0 <= i < j < |s.order| ==> s.order[i] != s.order[j])
    && (forall k :: k in s.books ==> s.books[k].isbn == k)
    && UniqueUsernames(s.users)
    && (forall i :: 0 <= i < |s.users| ==> s.users[i].username != "" && s.users[i].password != "")
    && (forall name :: name in s.sessions ==> s.sessions[name] && IsRegistered(s.users, name))
  }

  /** Same ISBN keys in the same order, and each book differs at most in its reviews. */
  ghost predicate SameCatalog(s: State, t: State) {
    && t.order == s.order
    && t.books.Keys == s.books.Keys
    && (forall k :: k in s.books ==> t.books[k].(reviews := s.books[k].reviews) == s.books[k])
  }

  /** Users are only appended, and no login flag is ever cleared. */
  ghost predicate Grows(s: State, t: State) {
    && s.users <= t.users
    && (forall name :: LoggedIn(s.sessions, name) ==> LoggedIn(t.sessions, name))
  }

  lemma SeedValid()
    ensures Valid(Seed)
  {
  }

  /** Every request keeps the book catalog fixed and only adds users and login flags. */
  lemma StepGrows(s: State, req: Request)
    ensures SameCatalog(s, Step(s, req).next)
    ensures Grows(s, Step(s, req).next)
  {
  }

  /** The five GET routes change nothing; listing returns the whole table and the other reads answer 200 or 404. */
  lemma QueriesAreReadOnly(s: State, req: Request)
    requires IsQuery(req)
    ensures Step(s, req).next == s
    ensures req.GetBooks? ==> Step(s, req).reply == Reply(Ok, NoMessage, BookTable(s.books))
    ensures Step(s, req).reply.status == Ok || Step(s, req).reply == BookMissing
  {
  }

  lemma StepPreservesValid(s: State, req: Request)
    requires Valid(s)
    ensures Valid(Step(s, req).next)
  {
    match req
    case PostRegister(username, password) => RegisterPreservesValid(s, username, password);
    case PostLogin(username, password) => LoginPreservesValid(s, username, password);
    case PutBookReview(isbn, username, review) => ReviewsPreserveValid(s, PutReview(s, isbn, username, review).next);
    case DeleteBookReview(isbn, username) => ReviewsPreserveValid(s, DeleteReview(s, isbn, username).next);
    case _ => QueriesAreReadOnly(s, req);
  }

  lemma RegisterPreservesValid(s: State, username: Value, password: Value)
    requires Valid(s)
    ensures Valid(Register(s, username, password).next)
  {
    var t := Register(s, username, password).next;
    if t != s {
      assert t.users == s.users + [User(username.s, password.s)];
      forall name | name in t.sessions ensures IsRegistered(t.users, name) {
        var i :| 0 <= i < |s.users| && s.users[i].username == name;
        assert t.users[i] == s.users[i];
      }
    }
  }

  lemma LoginPreservesValid(s: State, username: Value, password: Value)
    requires Valid(s)
    ensures Valid(Login(s, username, password).next)
  {
    var t := Login(s, username, password).next;
    if t != s {
      var i :| 0 <= i < |s.users| && Matches(s.users[i], username, password);
      assert IsRegistered(t.users, username.s);
    }
  }

  /** A review update or delete keeps users, flags, key order and every non-review book field. */
  lemma ReviewsPreserveValid(s: State, t: State)
    requires Valid(s)
    requires t.users == s.users && t.sessions == s.sessions
    requires SameCatalog(s, t)
    ensures Valid(t)
  {
    forall k | k in t.books ensures t.books[k].isbn == k {
      assert t.books[k].(reviews := s.books[k].reviews) == s.books[k];
    }
  }

  lemma {:induction false} RunKeepsCatalog(s: State, reqs: seq<Request>)
    ensures SameCatalog(s, Run(s, reqs))
    ensures Grows(s, Run(s, reqs))
    decreases |reqs|
  {
    if |reqs| > 0 {
      StepGrows(s, reqs[0]);
      RunKeepsCatalog(Step(s, reqs[0]).next, reqs[1..]);
    }
  }

  lemma {:induction false} RunPreservesValid(s: State, reqs: seq<Request>)
    requires Valid(s)
    ensures Valid(Run(s, reqs))
    decreases |reqs|
  {
    if |reqs| > 0 {
      StepPreservesValid(s, reqs[0]);
      RunPreservesValid(Step(s, reqs[0]).next, reqs[1..]);
    }
  }

  /** Every state the service can reach from start-up satisfies the invariants and keeps the seeded books. */
  lemma ReachableStates(reqs: seq<Request>)
    ensures Valid(Run(Seed, reqs))
    ensures SameCatalog(Seed, Run(Seed, reqs))
    ensures Run(Seed, reqs).books.Keys == {MartianIsbn, ChamberIsbn}
  {
    SeedValid();
    RunPreservesValid(Seed, reqs);
    RunKeepsCatalog(Seed, reqs);
  }

  /** Request `req` is a login of `name` whose credentials match a record in `users`. */
  ghost predicate LoginOf(req: Request, users: seq<User>, name: string) {
    && req.PostLogin?
    && req.username == Str(name)
    && exists j :: 0 <= j < |users| && Matches(users[j], req.username, req.password)
  }

  /**
   A login flag raised while serving `reqs` was raised by some request `reqs[i]`: a login
   of that name which, served in the state reached just before it, matched a stored
   record and succeeded.
   */
  lemma {:induction false} FlagsComeFromLogins(s: State, reqs: seq<Request>, name: string)
    requires LoggedIn(Run(s, reqs).sessions, name)
    requires !LoggedIn(s.sessions, name)
    ensures exists i ::
      && 0 <= i < |reqs|
      && LoginOf(reqs[i], Run(s, reqs[..i]).users, name)
      && Step(Run(s, reqs[..i]), reqs[i]).reply.status == Ok
    decreases |reqs|
  {
    assert |reqs| > 0;
    var next := Step(s, reqs[0]).next;
    assert Run(s, reqs) == Run(next, reqs[1..]);
    if LoggedIn(next.sessions, name) {
      var req := reqs[0];
      assert req.PostLogin?;
      assert Run(s, reqs[..0]) == s;
      assert LoginOf(reqs[0], Run(s, reqs[..0]).users, name);
    } else {
      FlagsComeFromLogins(next, reqs[1..], name);
      var i :| 0 <= i < |reqs[1..]|
        && LoginOf(reqs[1..][i], Run(next, reqs[1..][..i]).users, name)
        && Step(Run(next, reqs[1..][..i]), reqs[1..][i]).reply.status == Ok;
      assert reqs[i + 1] == reqs[1..][i];
      assert reqs[..i + 1][1..] == reqs[1..][..i];
      assert Run(s, reqs[..i + 1]) == Run(next, reqs[1..][..i]);
    }
  }
}
