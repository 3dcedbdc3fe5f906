# read-n-quote: a verified model of the journal's data layer

read-n-quote is a small reading journal. A user registers and logs in, records
books (title, author, year, genres, status, rating, notes), records quotes from
them (text, book title, book id, page, tags), and reads a few analytics. All of
the data lives in three JSON documents: users, books and quotes. Each is a map
from a username to that user's data. Every operation loads a document, changes
it and writes it back whole.

This project models that data layer in Dafny and proves what it does:

- `Dicts` models a Python dict as JSON round-trips it: a sequence of
  (key, value) items in insertion order. Assigning to a present key keeps its
  position. Assigning to a new key appends it. `del` keeps the order of the rest.
- `Records` holds the JSON values a record stores (strings, integers, lists of
  strings) and `dict.get` with a default.
- `Strings` covers `strip() == ""`, `lower()`, the substring test, `str(int)`
  and Python's ordering of strings.
- `Journal` is a class whose fields are the three documents and the session
  (`authenticated`, `current_user`, `current_page`). Its methods are
  registration, login, logout and the book and quote operations. Each method
  states the new state outright and keeps the invariant `Valid`: every
  collection has distinct ids, and a session is authenticated exactly when it
  names a known user. Deleting a book deletes its quotes in a loop, as the
  source does. That loop is proved to remove exactly the quotes that refer to
  the book.
- `Counting` models the counting loop `counts[k] = counts.get(k, 0) + 1` and
  `max(counts.items(), key=count)`, which returns the first item of largest
  count in iteration order.
- `Analytics` covers the year filter, the two "most" analytics as loops proved
  against `Counting`, and the reading statistics. The statistics include a
  stable descending sort by entry date, proved sorted, a permutation, and
  order-preserving among books of equal date.
- `Filters` covers the search and filter predicates of the "My Books" and
  "My Quotes" pages.

The generated id (`uuid.uuid4()`) and the current time (`datetime.now()`) are
parameters of the operations that use them.

The login error messages follow the code: "Username not found" and
"Incorrect password".

## Model

| member | source | states |
|---|---|---|
| Journal.Journal.constructor | app.py:20-26 | A new session is unauthenticated, with no current user, on the "Home" page; the documents start empty. |
| Journal.Journal.Register | app.py:48-70 | The checks run in order: blank username, then blank password, then existing username. The first failing check gives the message and changes nothing. Success stores the password and gives the user empty books and quotes, and nothing else changes. |
| Journal.Journal.Login | app.py:72-82 | An unknown username fails first, then a password that differs from the stored one; success holds exactly when the password matches and authenticates the session for that user. A failure leaves the session unchanged. |
| Journal.Journal.Logout | app.py:84-88 | The session is unauthenticated, with no user, on "Home", whatever it was before. |
| Journal.Journal.GetBooks | app.py:100-104 | A user's books; an unknown user has none, and the ids are distinct. |
| Journal.Journal.GetQuotes | app.py:151-154 | A user's quotes; an unknown user has none, and the ids are distinct. |
| Journal.Stamped | app.py:95-96 | A new book gets an `entry_date` and a `last_updated` equal to the time given, and every other field is kept. |
| Journal.Journal.AddBook | app.py:91-98 | Fails with no change for an unknown user (the source's KeyError happens before the save). Otherwise the stamped book is stored under the id; a fresh id is appended after the user's other books. |
| Journal.AddTwoBooks | app.py:91-98 | Two books added under two fresh ids both appear, in the order added, after the existing books. |
| Journal.Revised | app.py:110-111 | `update` keeps the fields the updates do not name, takes the named fields from the updates, and then sets `last_updated` to the time given. |
| Journal.Journal.UpdateBook | app.py:106-114 | Succeeds exactly when the user and the book exist; the book is replaced by its revision in the same position, the set of ids is unchanged, and a failure changes nothing. |
| Journal.Journal.DeleteBook | app.py:116-135 | Succeeds exactly when the user and the book exist. The book is removed. When the user has a quote collection, it becomes the cascade of the book. Otherwise, and on failure, nothing else changes. |
| Journal.Journal.DeleteQuotesOfBook | app.py:125-132 | The collect-then-delete loop leaves the user's quotes equal to the cascade of the book, with distinct ids. |
| Journal.RefersTo | app.py:128 | `quote.get('book_id') == book_id`. |
| Journal.QuoteIdsOfBook | app.py:126-129 | The ids `delete_book` collects, in stored order; never more than there are quotes. |
| Journal.Cascade | app.py:123-131 | The quotes left after deleting a book, in stored order; never more than there were. |
| Journal.QuoteIdsMeaning | app.py:126-129 | The collected list holds the id of every quote whose `book_id` is the book, and of no other quote. |
| Journal.CascadeByIds | app.py:126-131 | Dropping the collected ids from a collection with distinct ids gives exactly the cascade. |
| Journal.DropReferring | app.py:130-131 | Dropping any list of ids that names exactly the referring quotes gives the cascade. |
| Journal.CascadeSound | app.py:123-131 | No quote left after deleting a book refers to it. |
| Journal.CascadeShrinks | app.py:123-131 | Deleting a book's quotes adds nothing: the survivors are a sub-multiset of the quotes. |
| Journal.CascadeKeeps | app.py:123-131 | Every quote that does not refer to the deleted book survives. |
| Journal.Dated | app.py:142 | A new quote gets an `entry_date` equal to the time given, and every other field is kept. |
| Journal.Journal.AddQuote | app.py:138-148 | The collection is created when missing, and the dated quote is stored under its id; a fresh id is appended. |
| Journal.Journal.DeleteQuote | app.py:156-163 | Succeeds exactly when the user and the quote exist; only that quote is removed, and a failure changes nothing. |
| Journal.RegisterThenLogin | app.py:48-82 | After a registration, registering the same name again fails with "Username already exists", a wrong password gives "Incorrect password", and the right one logs in. |
| Dicts.Put | app.py:97 | Assigning to a key: a present key keeps its position, a new key is appended, the key then maps to the new value, other items are unchanged, and keys stay distinct. |
| Dicts.GetPut | app.py:182 | `get` after an assignment returns the new value for that key and the old answer for every other key. |
| Dicts.DelIsDrop | app.py:120 | `del` of a key in a dict with distinct keys removes that one item and keeps the order of the rest. |
| Dicts.DropKeys | app.py:130-131 | Removing a list of keys leaves no removed key, invents no key, and keeps keys distinct. |
| Dicts.DropKeysKeeps | app.py:130-131 | Every item whose key is not in the removed list survives. |
| Dicts.Del | app.py:120 | `del` of an absent key changes nothing; of a present key, removes one item. |
| Dicts.DelAfterDrop | app.py:130-131 | One more `del` extends the list of removed keys by that key. |
| Strings.IsBlank | app.py:51-54 | `s.strip() == ""`: every character is whitespace (the empty string included). |
| Strings.Lower | app.py:171 | `lower()` keeps the length and lowers each character. |
| Strings.LowerAppend | app.py:366-367 | Lowering a concatenation lowers each part. |
| Strings.LexLe | app.py:219-223 | Python's `<=` on strings: lexicographic by code point, a proper prefix first. |
| Strings.LexLeReflexive | app.py:219-223 | Every string is at most itself. |
| Strings.LexLeTotal | app.py:219-223 | Python's string order compares any two strings. |
| Strings.LexLeTransitive | app.py:219-223 | Python's string order is transitive. |
| Strings.LexLeAntisymmetric | app.py:219-223 | Two strings each at most the other are equal. |
| Records.Items | app.py:215 | `for x in record.get(key, [])`: the strings of a list, or the characters of a string, each as a one-character string; a missing field gives nothing. |
| Analytics.YearMentions | app.py:172 | `str(year) in book.get('year', '')`: a substring test on a string year, a membership test on a list year. |
| Analytics.CompletedIn | app.py:171-172 | The status lowered is "completed" and the year mentions `str(year)`. |
| Analytics.CompletedInYear | app.py:166-173 | The selection is drawn from the user's books, each at most once. |
| Analytics.CompletedInYearSound | app.py:170-172 | Every selected book has status "completed" in any case and contains `str(year)` in its year. |
| Analytics.CompletedInYearComplete | app.py:170-172 | Every book that meets the test is selected. |
| Analytics.CompletedInYearDistinct | app.py:169-173 | The result is again a dict with distinct ids. |
| Analytics.CompletedExactYear | app.py:171-172 | A book with status "Completed" and year "2021" counts for 2021. |
| Analytics.LooseYearMatch | app.py:172 | The year test is a substring test, so a year of "20210" also counts for 2021. |
| Analytics.ListYearMatch | app.py:172 | A year stored as a list is a membership test: ["2021"] counts for 2021 and ["20210"] does not. |
| Analytics.DroppedNotCompleted | app.py:171 | A book with another status does not count. |
| Counting.Tally | app.py:180-182 | The counting loop's dict has distinct keys. |
| Counting.TallyMeaning | app.py:180-182 | The counts hold exactly the keys seen, each with its number of occurrences, and they sum to the number of keys. |
| Counting.TallyOrder | app.py:180-182 | The counts list their keys in the order of first occurrence. |
| Counting.Bump | app.py:182 | One turn of the counting loop: `counts[k] = counts.get(k, 0) + 1`. |
| Counting.TallySnoc | app.py:182 | One more turn of the loop is one more `counts[k] = counts.get(k, 0) + 1`. |
| Counting.SumBump | app.py:182 | One turn of the loop adds one to the total count. |
| Counting.FirstMaxIndex | app.py:184 | `max` with a key picks an item of largest count, and every earlier item has a smaller count. |
| Counting.FirstMostCountedUnique | app.py:184 | At most one answer meets the "first most counted" description, so it determines the result. |
| Analytics.CountInto | app.py:180-182 | The counting loop, continued from earlier counts, yields the counts of all the keys seen. |
| Analytics.TallyFirstMax | app.py:184 | The first item of largest count in the counts is the first most counted key, with its count. |
| Analytics.MostCounted | app.py:178-184 | The result is None exactly when there is nothing to count. Otherwise it is the key counted most often, with its count; ties go to the key seen first. |
| Analytics.Column | app.py:181 | `record.get(key, dflt)` for each record, in stored order. |
| Analytics.BookWithMostQuotes | app.py:175-184 | Requires every title to be hashable (a list title makes the source raise). None exactly when the user has no quotes. Otherwise the first most-quoted stored title ("Unknown Book" when missing) with its number of quotes. |
| Analytics.AuthorWithMostBooks | app.py:186-195 | Requires every author to be hashable (a list author makes the source raise). None exactly when the user has no books. Otherwise the first most frequent author ("Unknown Author" when missing) with its number of books. |
| Analytics.MostQuotedExample | app.py:175-184 | With two quotes from "A" and one from "B", the answer is "A" with 2. |
| Analytics.InsertDesc | app.py:219-223 | Inserting into a list sorted newest first keeps it sorted, adds exactly that book, and places it after every book of the same date. |
| Analytics.SortDesc | app.py:219-223 | Sorting by entry date with `reverse=True` gives a list sorted newest first, a permutation of the books, in which books of equal date keep their original order. |
| Analytics.RecentBooks | app.py:219-224 | The three newest books (fewer when there are fewer), sorted newest first, drawn from the user's books with no book repeated; no book left out is newer than the last one listed. |
| Analytics.TopOfSorted | app.py:224 | The first three of a sorted permutation are a sub-multiset of the original and its newest books. |
| Analytics.ReadingStats | app.py:197-226 | Requires each status to be hashable, each genres field to be iterable and each entry date to be a string. The totals are the numbers of books and quotes. The status counts ("Unknown" when missing) are exactly the number of books per status and sum to the total. The genre counts are exactly the occurrences of each genre. The recent books are the three newest. |
| Filters.Rating | app.py:373 | A missing rating reads as 0; otherwise the stored rating. |
| Filters.BookShown | app.py:366-375 | A book is listed when the search term is in its title or author, the genre filter is in one of its genres, the status matches (or "All"), and its rating reaches the minimum. |
| Filters.ShownBooks | app.py:364-376 | The listed books are the stored books that pass every filter, and no others. |
| Filters.ShownBooksAppend | app.py:365-376 | The list keeps the stored order: the books of a first run are listed before those of a second. |
| Filters.FilterBooks | app.py:364-376 | The loop that builds the list yields exactly those books. |
| Filters.OpenFiltersShowRated | app.py:366-375 | With no search term, no genre filter and status "All", a book is listed exactly when its rating reaches the minimum. |
| Filters.UnratedHidden | app.py:373 | A book without a rating is never listed when the minimum rating is at least 1. |
| Filters.BookSearchIgnoresCase | app.py:366-367 | The case of the search term does not change which books are listed. |
| Filters.BookSearchNarrows | app.py:366-367 | Typing more of the search term can only remove books from the list. |
| Filters.QuoteShown | app.py:564-571 | A quote is listed when the search term is in its text, the book filter is in its book title ("Unknown Book" when missing), and the tag filter is in one of its tags. |
| Filters.UntaggedHidden | app.py:566-569 | A quote without tags is hidden as soon as a tag filter is typed. |
| Filters.QuoteTextNarrows | app.py:564 | Typing more of the text search can only remove quotes from the list. |
| Filters.QuoteBookNarrows | app.py:565 | Typing more of the book filter can only remove quotes from the list. |
| Filters.QuoteTagNarrows | app.py:566-569 | Typing more of the tag filter can only remove quotes from the list. |

## Left out

- File I/O: `load_data` and `save_data` are not modelled. The documents are fields of `Journal`, and a missing or unparsable file reads as an empty document (the constructor).
- Initialising missing data files on start-up is not modelled; it only writes empty documents.
- `uuid.uuid4()` and `datetime.now()` are parameters: the id and the timestamp string are given by the caller.
- `users.json` stores `{"password": p}` per user. The model stores `p`.
- The books and quotes documents wrap each collection in `{"books": ...}` or `{"quotes": ...}`; the model stores the collection directly. A user entry without the inner key raises KeyError in the source; this cannot arise through the modelled operations, and the model does not represent it.
- Journal.Journal.AddBook: the source stamps the caller's own dict in place (aliasing); the model stores a stamped copy.
- Journal.Journal.AddQuote: likewise, the source stamps the caller's own quote dict in place; the model stores a dated copy.
- The Streamlit pages, `st.balloons()`, sorting options of the list pages, the shuffle of the quote of the day, and the author lookup on the quotes page are UI and not modelled.
- Of the two filter loops, the book loop is modelled as a list (`ShownBooks`, `FilterBooks`). The quote loop is modelled only by its test `QuoteShown`: the list of display records it builds, with the author looked up from the books, is not modelled.
- Concurrency: two sessions interleaving load and save are not modelled.
- `strip()` and `lower()` follow ASCII (plus the Latin-1 spaces); full Unicode case mapping and whitespace are not modelled.
- JSON values are restricted to strings, integers and lists of strings; floats, booleans, null and nested objects are not modelled.
- Type errors: where a field of the wrong JSON type makes the source raise, the model instead requires the right type. These requires are: a string status and, for completed books, a string or list year in `YearReadable`; a hashable (non-list) title, author or status for the counting loops; iterable (string or list) genres and tags; string title, author, text and book title when the matching search is typed; an integer rating. A string genres or tags field is iterated character by character, as in the source.
- Analytics.ReadingStats: it requires every entry date to be a string. The source compares entry dates only when there are two or more books, and also accepts integer dates when every date is an integer.
- Analytics.CompletedInYear: its own contract states only that the selection is drawn from the books; what it keeps and drops is in the three lemmas beside it.
