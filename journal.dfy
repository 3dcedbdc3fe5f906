/**
 * The journal's state and its operations: the three JSON documents (users,
 * books, quotes), each a map from username to that user's data, and the
 * session (authenticated flag, current user, current page). Every
 * operation of the source reloads a document, changes it and writes it
 * back whole; here the documents are fields that the methods reassign.
 */
module Journal {
  import opened Wrappers
  import opened Strings
  import opened Dicts
  import opened Records

  /** `doc.get(username, {}).get("books" or "quotes", {})`. */
  function Owned(doc: map<string, Collection>, username: string): Collection {
    if username in doc then doc[username] else []
  }

  /** A new book as `add_book` stores it: stamped with the same creation and update time. */
  function Stamped(book: Record, now: string): (r: Record)
    ensures "entry_date" in r && "last_updated" in r
    ensures r["entry_date"] == r["last_updated"] == Text(now)
    ensures r.Keys == book.Keys + {"entry_date", "last_updated"}
    ensures forall k :: k in book && k != "entry_date" && k != "last_updated" ==> r[k] == book[k]
  {
    book["entry_date" := Text(now)]["last_updated" := Text(now)]
  }

  /**
   * A book after `update_book`: `record.update(updates)` keeps every field
   * the updates do not name, takes the named ones from the updates, and
   * the update time is then overwritten.
   */
  function Revised(book: Record, updates: Record, now: string): (r: Record)
    ensures r.Keys == book.Keys + updates.Keys + {"last_updated"}
    ensures r["last_updated"] == Text(now)
    ensures forall k :: k in updates && k != "last_updated" ==> r[k] == updates[k]
    ensures forall k :: k in book && k !in updates && k != "last_updated" ==> r[k] == book[k]
  {
    (book + updates)["last_updated" := Text(now)]
  }

  /** A new quote as `add_quote` stores it: stamped with its creation time. */
  function Dated(quote: Record, now: string): (r: Record)
    ensures r.Keys == quote.Keys + {"entry_date"}
    ensures r["entry_date"] == Text(now)
    ensures forall k :: k in quote && k != "entry_date" ==> r[k] == quote[k]
  {
    quote["entry_date" := Text(now)]
  }

  /** `quote.get('book_id') == book_id`. */
  predicate RefersTo(quote: Record, bookId: string) {
    "book_id" in quote && quote["book_id"] == Text(bookId)
  }

  /** The ids of the quotes that refer to `bookId`, in order: the list `delete_book` collects. */
  function QuoteIdsOfBook(quotes: Collection, bookId: string): (ids: seq<string>)
    ensures |ids| <= |quotes|
  {
    if quotes == [] then []
    else
      var rest := QuoteIdsOfBook(quotes[1..], bookId);
      if RefersTo(quotes[0].1, bookId) then [quotes[0].0] + rest else rest
  }

  /** The list holds the id of every referring quote and of no other quote. */
  lemma {:induction false} QuoteIdsMeaning(quotes: Collection, bookId: string)
    ensures forall j :: 0 <= j < |quotes| && RefersTo(quotes[j].1, bookId) ==> quotes[j].0 in QuoteIdsOfBook(quotes, bookId)
    ensures forall id :: id in QuoteIdsOfBook(quotes, bookId) ==>
      exists j :: 0 <= j < |quotes| && quotes[j].0 == id && RefersTo(quotes[j].1, bookId)
  {
    if quotes != [] {
      QuoteIdsMeaning(quotes[1..], bookId);
      assert forall j :: 1 <= j < |quotes| ==> quotes[j] == quotes[1..][j - 1];
    }
  }

  /** The quotes that survive deleting book `bookId`: those not referring to it, in their order. */
  function Cascade(quotes: Collection, bookId: string): (r: Collection)
    ensures |r| <= |quotes|
  {
    if quotes == [] then []
    else
      var rest := Cascade(quotes[1..], bookId);
      if RefersTo(quotes[0].1, bookId) then rest else [quotes[0]] + rest
  }

  /** No quote that survives the cascade refers to the deleted book. */
  lemma {:induction false} CascadeSound(quotes: Collection, bookId: string)
    ensures forall i :: 0 <= i < |Cascade(quotes, bookId)| ==> !RefersTo(Cascade(quotes, bookId)[i].1, bookId)
  {
    if quotes != [] {
      CascadeSound(quotes[1..], bookId);
    }
  }

  /** The cascade adds nothing: the survivors are a sub-multiset of the quotes. */
  lemma {:induction false} CascadeShrinks(quotes: Collection, bookId: string)
    ensures multiset(Cascade(quotes, bookId)) <= multiset(quotes)
  {
    if quotes != [] {
      CascadeShrinks(quotes[1..], bookId);
      assert quotes == [quotes[0]] + quotes[1..];
    }
  }

  /** Every quote that does not refer to the deleted book survives. */
  lemma {:induction false} CascadeKeeps(quotes: Collection, bookId: string)
    ensures forall i :: 0 <= i < |quotes| && !RefersTo(quotes[i].1, bookId) ==> quotes[i] in Cascade(quotes, bookId)
  {
    if quotes != [] {
      CascadeKeeps(quotes[1..], bookId);
      assert forall j :: 1 <= j < |quotes| ==> quotes[j] == quotes[1..][j - 1];
    }
  }

  /** Dropping the keys of a list that names exactly the referring quotes is the cascade. */
  lemma {:induction false} DropReferring(quotes: Collection, bookId: string, ids: seq<string>)
    requires forall j :: 0 <= j < |quotes| ==> (quotes[j].0 in ids <==> RefersTo(quotes[j].1, bookId))
    ensures DropKeys(quotes, ids) == Cascade(quotes, bookId)
  {
    if quotes != [] {
      assert forall j :: 1 <= j < |quotes| ==> quotes[j] == quotes[1..][j - 1];
      DropReferring(quotes[1..], bookId, ids);
    }
  }

  /** One turn of the deletion loop: deleting the next id extends the ids dropped so far. */
  lemma DropStep(before: Collection, doomed: seq<string>, i: nat)
    requires DistinctKeys(before) && i < |doomed|
    ensures Del(DropKeys(before, doomed[..i]), doomed[i]) == DropKeys(before, doomed[..i + 1])
  {
    TakeSnoc(doomed, i);
    DelAfterDrop(before, doomed[..i], doomed[i]);
  }

  lemma TakeSnoc<T>(s: seq<T>, i: nat)
    requires i < |s|
    ensures s[..i + 1] == s[..i] + [s[i]]
  {
  }

  /** After the loop, the collection is the cascade of the book, and its ids are still distinct. */
  lemma CascadeDone(before: Collection, bookId: string, doomed: seq<string>, remaining: Collection)
    requires DistinctKeys(before) && doomed == QuoteIdsOfBook(before, bookId)
    requires remaining == DropKeys(before, doomed[..|doomed|])
    ensures remaining == Cascade(before, bookId) && DistinctKeys(remaining)
  {
    assert doomed[..|doomed|] == doomed;
    CascadeByIds(before, bookId);
  }

  /**
   * Deleting, one by one, the ids that `delete_book` collects removes
   * exactly the quotes of the deleted book.
   */
  lemma CascadeByIds(quotes: Collection, bookId: string)
    requires DistinctKeys(quotes)
    ensures DropKeys(quotes, QuoteIdsOfBook(quotes, bookId)) == Cascade(quotes, bookId)
  {
    var ids := QuoteIdsOfBook(quotes, bookId);
    QuoteIdsMeaning(quotes, bookId);
    forall j | 0 <= j < |quotes|
      ensures quotes[j].0 in ids <==> RefersTo(quotes[j].1, bookId)
    {
      if quotes[j].0 in ids {
        var i :| 0 <= i < |quotes| && quotes[i].0 == quotes[j].0 && RefersTo(quotes[i].1, bookId);
        assert i == j;
      }
    }
    DropReferring(quotes, bookId, ids);
  }

  class Journal {
    /** users.json: username to password (stored as `{"password": ...}`). */
    var users: map<string, string>
    /** books.json: username to that user's books. */
    var books: map<string, Collection>
    /** quotes.json: username to that user's quotes. */
    var quotes: map<string, Collection>
    /** The session: `authenticated`, `current_user`, `current_page`. */
    var authenticated: bool
    var currentUser: Option<string>
    var currentPage: string

    /** Every dict has distinct keys, and a session is authenticated exactly when it names a known user. */
    ghost predicate Valid()
      reads this
    {
      && (forall u :: u in books ==> DistinctKeys(books[u]))
      && (forall u :: u in quotes ==> DistinctKeys(quotes[u]))
      && (authenticated <==> currentUser.Some?)
      && (currentUser.Some? ==> currentUser.value in users)
    }

    /** A fresh start: the three documents read as empty, nobody logged in, the home page shown. */
    constructor ()
      ensures Valid()
      ensures users == map[] && books == map[] && quotes == map[]
      ensures !authenticated && currentUser == None && currentPage == "Home"
    {
      users, books, quotes := map[], map[], map[];
      authenticated, currentUser, currentPage := false, None, "Home";
    }

    /** `get_books(username)`. */
    function GetBooks(username: string): (r: Collection)
      reads this
      requires Valid()
      ensures DistinctKeys(r)
      ensures username !in books ==> r == []
    {
      Owned(books, username)
    }

    /** `get_quotes(username)`. */
    function GetQuotes(username: string): (r: Collection)
      reads this
      requires Valid()
      ensures DistinctKeys(r)
      ensures username !in quotes ==> r == []
    {
      Owned(quotes, username)
    }

    /**
     * `register_user`: the checks run in a fixed order and the first that
     * fails gives the message; a failure changes nothing, a success stores
     * the password verbatim and gives the user empty books and quotes.
     */
    method Register(username: string, password: string) returns (ok: bool, message: string)
      requires Valid()
      modifies this`users, this`books, this`quotes
      ensures Valid()
      ensures IsBlank(username) ==> !ok && message == "Username cannot be empty"
      ensures !IsBlank(username) && IsBlank(password) ==> !ok && message == "Password cannot be empty"
      ensures !IsBlank(username) && !IsBlank(password) && username in old(users) ==>
        !ok && message == "Username already exists"
      ensures ok <==> !IsBlank(username) && !IsBlank(password) && username !in old(users)
      ensures ok ==> message == "Registration successful"
      ensures ok ==> (users == old(users)[username := password]
                      && books == old(books)[username := []]
                      && quotes == old(quotes)[username := []])
      ensures !ok ==> users == old(users) && books == old(books) && quotes == old(quotes)
    {
      if IsBlank(username) {
        return false, "Username cannot be empty";
      }
      if IsBlank(password) {
        return false, "Password cannot be empty";
      }
      if username in users {
        return false, "Username already exists";
      }
      users := users[username := password];
      books := books[username := []];
      quotes := quotes[username := []];
      return true, "Registration successful";
    }

    /**
     * `login_user`: an unknown name fails first, then a password that is
     * not exactly the stored one; success authenticates the session for
     * that user, failure leaves the session as it was.
     */
    method Login(username: string, password: string) returns (ok: bool, message: string)
      requires Valid()
      modifies this`authenticated, this`currentUser
      ensures Valid()
      ensures username !in users ==> !ok && message == "Username not found"
      ensures username in users && users[username] != password ==> !ok && message == "Incorrect password"
      ensures ok <==> username in users && users[username] == password
      ensures ok ==> message == "Login successful" && authenticated && currentUser == Some(username)
      ensures !ok ==> authenticated == old(authenticated) && currentUser == old(currentUser)
    {
      if username !in users {
        return false, "Username not found";
      }
      if users[username] != password {
        return false, "Incorrect password";
      }
      authenticated := true;
      currentUser := Some(username);
      return true, "Login successful";
    }

    /** `logout_user`: the session is reset whatever it was. */
    method Logout()
      requires Valid()
      modifies this`authenticated, this`currentUser, this`currentPage
      ensures Valid()
      ensures !authenticated && currentUser == None && currentPage == "Home"
    {
      authenticated := false;
      currentUser := None;
      currentPage := "Home";
    }

    /**
     * `add_book` with the generated id and the current time as parameters.
     * An unknown user makes the source raise KeyError before anything is
     * saved: `ok` is false and nothing changes. Otherwise the stamped book
     * is stored under `bookId`; with a fresh id it is appended, and every
     * other book, and every other user's data, is unchanged.
     */
    method AddBook(username: string, bookId: string, book: Record, now: string) returns (ok: bool)
      requires Valid()
      modifies this`books
      ensures Valid()
      ensures ok <==> username in old(books)
      ensures ok ==> books == old(books)[username := Put(old(books)[username], bookId, Stamped(book, now))]
      ensures ok && bookId !in Keys(old(books)[username]) ==>
        books[username] == old(books)[username] + [(bookId, Stamped(book, now))]
      ensures !ok ==> books == old(books)
    {
      if username !in books {
        return false;
      }
      books := books[username := Put(books[username], bookId, Stamped(book, now))];
      return true;
    }

    /**
     * `update_book`: false and no change when the user or the book is
     * absent; otherwise the book is merged with the updates and restamped,
     * keeping its place among the user's books.
     */
    method UpdateBook(username: string, bookId: string, updates: Record, now: string) returns (ok: bool)
      requires Valid()
      modifies this`books
      ensures Valid()
      ensures ok <==> username in old(books) && bookId in Keys(old(books)[username])
      ensures ok ==> books == old(books)[username :=
        Put(old(books)[username], bookId, Revised(Lookup(old(books)[username], bookId), updates, now))]
      ensures ok ==> Keys(books[username]) == Keys(old(books)[username])
      ensures !ok ==> books == old(books)
    {
      if !(username in books && bookId in Keys(books[username])) {
        return false;
      }
      var revised := Revised(Lookup(books[username], bookId), updates, now);
      books := books[username := Put(books[username], bookId, revised)];
      return true;
    }

    /**
     * `delete_book`: false and no change when the user or the book is
     * absent; otherwise the book is removed, and, when the user has a quote
     * collection, exactly the quotes referring to the book are removed
     * from it; the other quotes keep their order.
     */
    method DeleteBook(username: string, bookId: string) returns (ok: bool)
      requires Valid()
      modifies this`books, this`quotes
      ensures Valid()
      ensures ok <==> username in old(books) && bookId in Keys(old(books)[username])
      ensures ok ==> books == old(books)[username := Del(old(books)[username], bookId)]
      ensures ok && username in old(quotes) ==>
        quotes == old(quotes)[username := Cascade(old(quotes)[username], bookId)]
      ensures !(ok && username in old(quotes)) ==> quotes == old(quotes)
      ensures !ok ==> books == old(books)
    {
      if !(username in books && bookId in Keys(books[username])) {
        return false;
      }
      DelIsDrop(books[username], bookId);
      books := books[username := Del(books[username], bookId)];
      if username in quotes {
        DeleteQuotesOfBook(username, bookId);
      }
      return true;
    }

    /** The cascade of `delete_book`: collect the ids of the book's quotes, then delete them one by one. */
    method DeleteQuotesOfBook(username: string, bookId: string)
      requires Valid() && username in quotes
      modifies this`quotes
      ensures Valid()
      ensures quotes == old(quotes)[username := Cascade(old(quotes)[username], bookId)]
    {
      var remaining := quotes[username];
      ghost var before := remaining;
      assert DistinctKeys(before);
      var doomed := QuoteIdsOfBook(remaining, bookId);
      DropKeysNone(before, doomed[..0]);
      var i := 0;
      while i < |doomed|
        invariant 0 <= i <= |doomed|
        invariant remaining == DropKeys(before, doomed[..i])
        invariant quotes == old(quotes)
      {
        DropStep(before, doomed, i);
        remaining := Del(remaining, doomed[i]);
        i := i + 1;
      }
      CascadeDone(before, bookId, doomed, remaining);
      quotes := quotes[username := remaining];
    }

    /**
     * `add_quote` with the generated id and the current time as
     * parameters: the user's quote collection is created when missing and
     * the dated quote stored under `quoteId`; with a fresh id it is appended.
     */
    method AddQuote(username: string, quoteId: string, quote: Record, now: string)
      requires Valid()
      modifies this`quotes
      ensures Valid()
      ensures quotes == old(quotes)[username := Put(Owned(old(quotes), username), quoteId, Dated(quote, now))]
      ensures quoteId !in Keys(Owned(old(quotes), username)) ==>
        quotes[username] == Owned(old(quotes), username) + [(quoteId, Dated(quote, now))]
    {
      if username !in quotes {
        quotes := quotes[username := []];
      }
      quotes := quotes[username := Put(quotes[username], quoteId, Dated(quote, now))];
    }

    /** `delete_quote`: true exactly when the quote existed; only that quote is removed. */
    method DeleteQuote(username: string, quoteId: string) returns (ok: bool)
      requires Valid()
      modifies this`quotes
      ensures Valid()
      ensures ok <==> username in old(quotes) && quoteId in Keys(old(quotes)[username])
      ensures ok ==> quotes == old(quotes)[username := Del(old(quotes)[username], quoteId)]
      ensures ok ==> quoteId !in Keys(quotes[username])
      ensures !ok ==> quotes == old(quotes)
    {
      if !(username in quotes && quoteId in Keys(quotes[username])) {
        return false;
      }
      DelIsDrop(quotes[username], quoteId);
      quotes := quotes[username := Del(quotes[username], quoteId)];
      return true;
    }
  }

  /**
   * Registering, then logging in: a second registration of the same name
   * fails, a wrong password is refused, the right one logs the user in.
   */
  method RegisterThenLogin(j: Journal, username: string, password: string, wrong: string)
    requires j.Valid()
    requires !IsBlank(username) && !IsBlank(password) && username !in j.users && wrong != password
    modifies j
    ensures j.Valid()
    ensures j.users == old(j.users)[username := password]
    ensures j.GetBooks(username) == [] && j.GetQuotes(username) == []
    ensures j.authenticated && j.currentUser == Some(username)
  {
    var ok, message := j.Register(username, password);
    assert ok;
    ok, message := j.Register(username, password);
    assert !ok && message == "Username already exists";
    ok, message := j.Login(username, wrong);
    assert !ok && message == "Incorrect password";
    ok, message := j.Login(username, password);
    assert ok;
  }

  /** Two books added with two fresh ids both appear, in the order they were added. */
  method AddTwoBooks(j: Journal, username: string, id1: string, id2: string, b1: Record, b2: Record, now: string)
    requires j.Valid() && username in j.books
    requires id1 != id2 && id1 !in Keys(j.books[username]) && id2 !in Keys(j.books[username])
    modifies j
    ensures j.Valid()
    ensures j.GetBooks(username) == old(j.books[username]) + [(id1, Stamped(b1, now)), (id2, Stamped(b2, now))]
  {
    ghost var before := j.books[username];
    ghost var e1, e2 := (id1, Stamped(b1, now)), (id2, Stamped(b2, now));
    var ok := j.AddBook(username, id1, b1, now);
    assert j.books[username] == Put(before, id1, Stamped(b1, now));
    assert Keys(j.books[username]) == Keys(before) + [id1];
    ok := j.AddBook(username, id2, b2, now);
    AppendTwo(before, e1, e2);
  }

  lemma AppendTwo<T>(s: seq<T>, x: T, y: T)
    ensures s + [x] + [y] == s + [x, y]
  {
  }
}
