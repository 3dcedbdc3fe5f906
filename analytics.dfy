/**
 * The reading analytics: pure reads over one user's books and quotes, as
 * `get_books` and `get_quotes` return them.
 */
module Analytics {
  import opened Wrappers
  import opened Strings
  import opened Dicts
  import opened Counting
  import opened Records

  // ---------------------------------------------------------------------------
  // books_completed_in_year

  /**
   * What `books_completed_in_year` needs to read `book` without an error:
   * a string status (it is lowered), and, when the book is completed, a
   * year that `in` can search (a string or a list, not an integer).
   */
  predicate YearReadable(book: Record) {
    HoldsText(book, "status")
    && (Lower(TextField(book, "status", "")) == "completed" ==> HoldsIterable(book, "year"))
  }

  /**
   * `str(year) in book.get('year', '')`: a substring test when the year is
   * a string, a membership test when it is a list.
   */
  predicate YearMentions(book: Record, year: int) {
    match Field(book, "year", Text(""))
    case Text(y) => Contains(y, IntToString(year))
    case TextList(ys) => IntToString(year) in ys
    case Number(_) => false
  }

  /** The book counts as completed in `year`: its status is "completed" in any case, and its year mentions `year`. */
  predicate CompletedIn(book: Record, year: int) {
    Lower(TextField(book, "status", "")) == "completed" && YearMentions(book, year)
  }

  /**
   * `books_completed_in_year`: the books completed in `year`, each under its
   * own id, in the order of the user's books. What it keeps and what it
   * drops is stated by the three lemmas below.
   */
  function CompletedInYear(books: Collection, year: int): (r: Collection)
    requires forall i :: 0 <= i < |books| ==> YearReadable(books[i].1)
    ensures multiset(r) <= multiset(books)
  {
    if books == [] then []
    else
      var rest := CompletedInYear(books[1..], year);
      assert books == [books[0]] + books[1..];
      if CompletedIn(books[0].1, year) then [books[0]] + rest else rest
  }

  /** Every book selected is completed in `year`. */
  lemma {:induction false} CompletedInYearSound(books: Collection, year: int)
    requires forall i :: 0 <= i < |books| ==> YearReadable(books[i].1)
    ensures forall j :: 0 <= j < |CompletedInYear(books, year)| ==> CompletedIn(CompletedInYear(books, year)[j].1, year)
  {
    if books != [] {
      CompletedInYearSound(books[1..], year);
    }
  }

  /** Every book completed in `year` is selected. */
  lemma {:induction false} CompletedInYearComplete(books: Collection, year: int)
    requires forall i :: 0 <= i < |books| ==> YearReadable(books[i].1)
    ensures forall i :: 0 <= i < |books| && CompletedIn(books[i].1, year) ==> books[i] in CompletedInYear(books, year)
  {
    if books != [] {
      CompletedInYearComplete(books[1..], year);
      forall i | 1 <= i < |books| && CompletedIn(books[i].1, year)
        ensures books[i] in CompletedInYear(books, year)
      {
        assert books[i] == books[1..][i - 1];
      }
    }
  }

  /** The selection is a dict again: its ids stay distinct. */
  lemma {:induction false} CompletedInYearDistinct(books: Collection, year: int)
    requires forall i :: 0 <= i < |books| ==> YearReadable(books[i].1)
    requires DistinctKeys(books)
    ensures DistinctKeys(CompletedInYear(books, year))
  {
    if books != [] {
      CompletedInYearDistinct(books[1..], year);
      if CompletedIn(books[0].1, year) {
        ConsDistinct(books, CompletedInYear(books[1..], year));
      }
    }
  }

  /** The first item of a dict, put before a selection of the others, keeps the ids distinct. */
  lemma ConsDistinct(books: Collection, rest: Collection)
    requires books != [] && DistinctKeys(books) && DistinctKeys(rest)
    requires multiset(rest) <= multiset(books[1..])
    ensures DistinctKeys([books[0]] + rest)
  {
    var r := [books[0]] + rest;
    forall i, j | 0 <= i < j < |r|
      ensures r[i].0 != r[j].0
    {
      if i == 0 {
        assert r[j] in multiset(books[1..]);
        var q :| 0 <= q < |books[1..]| && books[1..][q] == r[j];
        assert books[q + 1] == r[j];
      } else {
        assert r[i] == rest[i - 1] && r[j] == rest[j - 1];
      }
    }
  }

  lemma Year2021()
    ensures IntToString(2021) == "2021"
  {
    assert NatToString(2) == "2";
    assert NatToString(20) == "20";
    assert NatToString(202) == "202";
  }

  lemma LowerCompleted()
    ensures Lower("Completed") == "completed"
  {
  }

  /** A book completed in 2021 counts for 2021, whatever the case of its status. */
  lemma CompletedExactYear()
    ensures CompletedIn(map["status" := Text("Completed"), "year" := Text("2021")], 2021)
  {
    Year2021();
    LowerCompleted();
    assert OccursAt("2021", "2021", 0);
  }

  /** The year test is a substring test: a year of "20210" also counts for 2021. */
  lemma LooseYearMatch()
    ensures CompletedIn(map["status" := Text("Completed"), "year" := Text("20210")], 2021)
  {
    Year2021();
    LowerCompleted();
    assert OccursAt("20210", "2021", 0);
  }

  /** A year stored as a list is a membership test: ["2021"] counts for 2021, ["20210"] does not. */
  lemma ListYearMatch()
    ensures CompletedIn(map["status" := Text("completed"), "year" := TextList(["2021"])], 2021)
    ensures !CompletedIn(map["status" := Text("completed"), "year" := TextList(["20210"])], 2021)
  {
    Year2021();
    assert "20210" != "2021";
  }

  /** A book with any other status does not count. */
  lemma DroppedNotCompleted()
    ensures !CompletedIn(map["status" := Text("Dropped"), "year" := Text("2021")], 2021)
  {
    assert Lower("Dropped")[0] == 'd';
  }

  // ---------------------------------------------------------------------------
  // book_with_most_quotes, author_with_most_books

  /**
   * The counting loop followed by `max(counts.items(), key=count)`: the
   * first key in order of first occurrence among those counted most often.
   */
  method MostCounted<K(==,!new)>(keys: seq<K>) returns (r: Option<(K, int)>)
    ensures IsFirstMostCounted(keys, r)
  {
    var counts := CountInto([], keys, []);
    assert [] + keys == keys;
    if counts == [] {
      r := None;
    } else {
      r := Some(counts[FirstMaxIndex(counts)]);
      TallyFirstMax(keys);
    }
  }

  /**
   * The counting loop `for k in keys: counts[k] = counts.get(k, 0) + 1`,
   * continuing from the counts of the keys `done` already seen.
   */
  method CountInto<K(==,!new)>(counts: Dict<K, int>, keys: seq<K>, ghost done: seq<K>) returns (r: Dict<K, int>)
    requires counts == Tally(done)
    ensures r == Tally(done + keys)
  {
    r := counts;
    var i := 0;
    ghost var seen := done;
    assert done + keys[..0] == done;
    while i < |keys|
      invariant 0 <= i <= |keys|
      invariant seen == done + keys[..i]
      invariant r == Tally(seen)
    {
      SliceSnoc(done, keys, i);
      TallySnoc(seen, keys[i]);
      r := Bump(r, keys[i]);
      seen := seen + [keys[i]];
      i := i + 1;
    }
    assert keys[..i] == keys;
  }

  lemma SliceSnoc<K>(done: seq<K>, keys: seq<K>, i: nat)
    requires i < |keys|
    ensures done + keys[..i + 1] == (done + keys[..i]) + [keys[i]]
  {
    assert keys[..i + 1] == keys[..i] + [keys[i]];
  }

  /** The first item of largest count in the tally is the first most counted key. */
  lemma TallyFirstMax<K(!new)>(keys: seq<K>)
    requires Tally(keys) != []
    ensures IsFirstMostCounted(keys, Some(Tally(keys)[FirstMaxIndex(Tally(keys))]))
  {
    var t := Tally(keys);
    TallyMeaning(keys);
    TallyOrder(keys);
    FirstMaxCounted(keys, t, FirstMaxIndex(t));
  }

  /** The same, for any dict holding the counts of `keys` in first-occurrence order. */
  lemma FirstMaxCounted<K>(keys: seq<K>, t: Dict<K, int>, m: nat)
    requires DistinctKeys(t) && m < |t|
    requires forall x :: x in Keys(t) <==> x in keys
    requires forall x :: Get(t, x, 0) == Count(keys, x)
    requires forall p :: 0 <= p < |t| ==> t[p].1 <= t[m].1
    requires forall p :: 0 <= p < m ==> t[p].1 < t[m].1
    requires forall p, q :: 0 <= p < q < |t| ==>
      t[p].0 in keys && t[q].0 in keys && FirstIndex(keys, t[p].0) < FirstIndex(keys, t[q].0)
    ensures IsFirstMostCounted(keys, Some(t[m]))
  {
    var k, c := t[m].0, t[m].1;
    assert Keys(t)[m] == k;
    assert IndexOf(t, k) == m;
    assert c == Count(keys, k) by { assert Get(t, k, 0) == c; }
    forall j | 0 <= j < |keys|
      ensures Count(keys, keys[j]) <= c
      ensures j < FirstIndex(keys, k) ==> Count(keys, keys[j]) < c
    {
      FirstMaxAt(keys, t, m, j);
    }
  }

  /** The bound `FirstMaxCounted` needs, for one position `j` of the keys. */
  lemma FirstMaxAt<K>(keys: seq<K>, t: Dict<K, int>, m: nat, j: nat)
    requires DistinctKeys(t) && m < |t| && j < |keys| && t[m].0 in keys
    requires forall x :: x in Keys(t) <==> x in keys
    requires forall x :: Get(t, x, 0) == Count(keys, x)
    requires forall p :: 0 <= p < |t| ==> t[p].1 <= t[m].1
    requires forall p :: 0 <= p < m ==> t[p].1 < t[m].1
    requires forall p, q :: 0 <= p < q < |t| ==>
      t[p].0 in keys && t[q].0 in keys && FirstIndex(keys, t[p].0) < FirstIndex(keys, t[q].0)
    ensures Count(keys, keys[j]) <= t[m].1
    ensures j < FirstIndex(keys, t[m].0) ==> Count(keys, keys[j]) < t[m].1
  {
    var p := IndexOf(t, keys[j]);
    assert Get(t, keys[j], 0) == t[p].1;
    if j < FirstIndex(keys, t[m].0) {
      assert FirstIndex(keys, keys[j]) <= j;
      assert p != m;
    }
  }

  /** `record.get(key, dflt)` for each record, in order: the keys the counting loops count. */
  function Column(records: Collection, key: string, dflt: Value): (values: seq<Value>)
    ensures |values| == |records|
    ensures forall i :: 0 <= i < |records| ==> values[i] == Field(records[i].1, key, dflt)
  {
    seq(|records|, i requires 0 <= i < |records| => Field(records[i].1, key, dflt))
  }

  /** `quote.get('book_title', 'Unknown Book')` for each quote. */
  function BookTitles(quotes: Collection): seq<Value> {
    Column(quotes, "book_title", Text("Unknown Book"))
  }

  /** `book.get('author', 'Unknown Author')` for each book. */
  function Authors(books: Collection): seq<Value> {
    Column(books, "author", Text("Unknown Author"))
  }

  /**
   * `book_with_most_quotes`: None when there are no quotes, otherwise the
   * first most quoted stored title (not book id) with its number of quotes.
   * A title stored as a list cannot be a dict key: the source raises.
   */
  method BookWithMostQuotes(quotes: Collection) returns (r: Option<(Value, int)>)
    requires forall i :: 0 <= i < |quotes| ==> Hashable(Field(quotes[i].1, "book_title", Text("Unknown Book")))
    ensures r.None? <==> quotes == []
    ensures IsFirstMostCounted(BookTitles(quotes), r)
  {
    r := MostCounted(BookTitles(quotes));
  }

  /**
   * `author_with_most_books`: None when there are no books, otherwise the
   * first most frequent author with its count. An author stored as a list
   * cannot be a dict key: the source raises.
   */
  method AuthorWithMostBooks(books: Collection) returns (r: Option<(Value, int)>)
    requires forall i :: 0 <= i < |books| ==> Hashable(Field(books[i].1, "author", Text("Unknown Author")))
    ensures r.None? <==> books == []
    ensures IsFirstMostCounted(Authors(books), r)
  {
    r := MostCounted(Authors(books));
  }

  /** Three quotes, two of them from "A": "A" wins with two. */
  lemma MostQuotedExample(q1: Record, q2: Record, q3: Record)
    requires q1 == map["book_title" := Text("A")] && q2 == q1 && q3 == map["book_title" := Text("B")]
    ensures IsFirstMostCounted(BookTitles([("q1", q1), ("q2", q2), ("q3", q3)]), Some((Text("A"), 2)))
  {
    var titles := BookTitles([("q1", q1), ("q2", q2), ("q3", q3)]);
    var a, b := Text("A"), Text("B");
    assert titles == [a, a, b];
    assert titles[..2] == [a, a] && [a, a][..1] == [a] && [a][..0] == [];
    assert Count([a], a) == 1 && Count([a], b) == 0;
    assert Count([a, a], a) == 2 && Count([a, a], b) == 0;
    assert Count(titles, a) == 2 && Count(titles, b) == 1;
  }

  // ---------------------------------------------------------------------------
  // get_reading_stats

  datatype Stats = Stats(
    totalBooks: nat,
    totalQuotes: nat,
    booksByStatus: Dict<Value, int>,
    genres: Dict<string, int>,
    recentBooks: Collection)

  /**
   * What `get_reading_stats` needs to read `book` without a TypeError: a
   * status that can be a dict key, genres that can be iterated, and a
   * string entry date to compare with the others.
   */
  predicate StatsReadable(book: Record) {
    Hashable(Field(book, "status", Text("Unknown")))
    && HoldsIterable(book, "genres")
    && HoldsText(book, "entry_date")
  }

  /** `book.get('status', 'Unknown')` for each book, in order. */
  function Statuses(books: Collection): (statuses: seq<Value>)
    ensures |statuses| == |books|
  {
    if books == [] then []
    else Statuses(books[..|books| - 1]) + [Field(books[|books| - 1].1, "status", Text("Unknown"))]
  }

  /** The genres of all books, book after book: each book contributes once per genre it lists. */
  function AllGenres(books: Collection): seq<string> {
    if books == [] then []
    else AllGenres(books[..|books| - 1]) + Items(books[|books| - 1].1, "genres")
  }

  /** The sort key of `recent_books`: `book.get('entry_date', '')`. */
  function EntryDate(book: Record): string {
    TextField(book, "entry_date", "")
  }

  /** Non-increasing in entry date. */
  predicate SortedDesc(s: Collection) {
    forall i, j :: 0 <= i < j < |s| ==> LexLe(EntryDate(s[j].1), EntryDate(s[i].1))
  }

  /** The items of `s` whose entry date is `date`, in their order. */
  function WithDate(s: Collection, date: string): Collection {
    if s == [] then []
    else (if EntryDate(s[0].1) == date then [s[0]] else []) + WithDate(s[1..], date)
  }

  lemma {:induction false} WithDateAppend(a: Collection, b: Collection, date: string)
    ensures WithDate(a + b, date) == WithDate(a, date) + WithDate(b, date)
  {
    if a == [] {
      assert a + b == b;
    } else {
      WithDateAppend(a[1..], b, date);
      ConsSplit(a, b);
      WithDateCons(a[0], a[1..] + b, date);
      WithDateCons(a[0], a[1..], date);
    }
  }

  lemma ConsSplit<T>(a: seq<T>, b: seq<T>)
    requires a != []
    ensures a == [a[0]] + a[1..] && a + b == [a[0]] + (a[1..] + b)
  {
  }

  lemma WithDateCons(x: (string, Record), t: Collection, date: string)
    ensures WithDate([x] + t, date) == (if EntryDate(x.1) == date then [x] else []) + WithDate(t, date)
  {
    assert ([x] + t)[0] == x && ([x] + t)[1..] == t;
  }

  lemma {:induction false} WithDateNone(s: Collection, date: string)
    requires forall j :: 0 <= j < |s| ==> EntryDate(s[j].1) != date
    ensures WithDate(s, date) == []
  {
    if s != [] {
      WithDateNone(s[1..], date);
    }
  }

  /**
   * One step of a stable descending sort: `e` goes after every item whose
   * date is not smaller than its own, so items of equal date keep their order.
   */
  function InsertDesc(e: (string, Record), s: Collection): (r: Collection)
    requires SortedDesc(s)
    ensures SortedDesc(r)
    ensures multiset(r) == multiset(s) + multiset{e}
    ensures forall date :: WithDate(r, date) == WithDate(s, date) + (if EntryDate(e.1) == date then [e] else [])
  {
    if s == [] then [e]
    else if LexLe(EntryDate(e.1), EntryDate(s[0].1)) then
      var rest := InsertDesc(e, s[1..]);
      InsertBelow(e, s, rest);
      [s[0]] + rest
    else
      InsertAbove(e, s);
      [e] + s
  }

  lemma InsertBelow(e: (string, Record), s: Collection, rest: Collection)
    requires s != [] && SortedDesc(s) && SortedDesc(rest)
    requires LexLe(EntryDate(e.1), EntryDate(s[0].1))
    requires multiset(rest) == multiset(s[1..]) + multiset{e}
    requires forall date :: WithDate(rest, date) == WithDate(s[1..], date) + (if EntryDate(e.1) == date then [e] else [])
    ensures SortedDesc([s[0]] + rest)
    ensures multiset([s[0]] + rest) == multiset(s) + multiset{e}
    ensures forall date :: WithDate([s[0]] + rest, date) == WithDate(s, date) + (if EntryDate(e.1) == date then [e] else [])
  {
    InsertBelowSorted(e, s, rest);
    InsertBelowCount(e, s, rest);
    forall date
      ensures WithDate([s[0]] + rest, date) == WithDate(s, date) + (if EntryDate(e.1) == date then [e] else [])
    {
      InsertBelowDate(e, s, rest, date);
    }
  }

  lemma InsertBelowCount(e: (string, Record), s: Collection, rest: Collection)
    requires s != []
    requires multiset(rest) == multiset(s[1..]) + multiset{e}
    ensures multiset([s[0]] + rest) == multiset(s) + multiset{e}
  {
    assert s == [s[0]] + s[1..];
  }

  lemma InsertBelowDate(e: (string, Record), s: Collection, rest: Collection, date: string)
    requires s != []
    requires WithDate(rest, date) == WithDate(s[1..], date) + (if EntryDate(e.1) == date then [e] else [])
    ensures WithDate([s[0]] + rest, date) == WithDate(s, date) + (if EntryDate(e.1) == date then [e] else [])
  {
    WithDateCons(s[0], rest, date);
  }

  lemma InsertBelowSorted(e: (string, Record), s: Collection, rest: Collection)
    requires s != [] && SortedDesc(s) && SortedDesc(rest)
    requires LexLe(EntryDate(e.1), EntryDate(s[0].1))
    requires multiset(rest) == multiset(s[1..]) + multiset{e}
    ensures SortedDesc([s[0]] + rest)
  {
    forall j | 0 <= j < |rest|
      ensures LexLe(EntryDate(rest[j].1), EntryDate(s[0].1))
    {
      assert rest[j] in multiset(rest);
      if rest[j] != e {
        var q :| 0 <= q < |s[1..]| && s[1..][q] == rest[j];
        assert s[q + 1] == rest[j];
      }
    }
    var r := [s[0]] + rest;
    forall i, j | 0 <= i < j < |r|
      ensures LexLe(EntryDate(r[j].1), EntryDate(r[i].1))
    {
      if i > 0 {
        assert r[i] == rest[i - 1] && r[j] == rest[j - 1];
      } else {
        assert r[j] == rest[j - 1];
      }
    }
  }

  lemma InsertAbove(e: (string, Record), s: Collection)
    requires s != [] && SortedDesc(s)
    requires !LexLe(EntryDate(e.1), EntryDate(s[0].1))
    ensures SortedDesc([e] + s)
    ensures forall date :: WithDate([e] + s, date) == WithDate(s, date) + (if EntryDate(e.1) == date then [e] else [])
  {
    InsertAboveOlder(e, s);
    InsertAboveSorted(e, s);
    WithDateNone(s, EntryDate(e.1));
    forall date
      ensures WithDate([e] + s, date) == WithDate(s, date) + (if EntryDate(e.1) == date then [e] else [])
    {
      WithDateCons(e, s, date);
    }
  }

  /** Every item of `s` is strictly older than `e`. */
  lemma InsertAboveOlder(e: (string, Record), s: Collection)
    requires s != [] && SortedDesc(s)
    requires !LexLe(EntryDate(e.1), EntryDate(s[0].1))
    ensures forall j :: 0 <= j < |s| ==> LexLe(EntryDate(s[j].1), EntryDate(e.1)) && EntryDate(s[j].1) != EntryDate(e.1)
  {
    LexLeTotal(EntryDate(e.1), EntryDate(s[0].1));
    LexLeReflexive(EntryDate(s[0].1));
    forall j | 0 <= j < |s|
      ensures LexLe(EntryDate(s[j].1), EntryDate(e.1))
      ensures EntryDate(s[j].1) != EntryDate(e.1)
    {
      LexLeTransitive(EntryDate(s[j].1), EntryDate(s[0].1), EntryDate(e.1));
    }
  }

  lemma InsertAboveSorted(e: (string, Record), s: Collection)
    requires SortedDesc(s)
    requires forall j :: 0 <= j < |s| ==> LexLe(EntryDate(s[j].1), EntryDate(e.1))
    ensures SortedDesc([e] + s)
  {
    var r := [e] + s;
    forall i, j | 0 <= i < j < |r|
      ensures LexLe(EntryDate(r[j].1), EntryDate(r[i].1))
    {
      assert r[j] == s[j - 1];
      if i > 0 {
        assert r[i] == s[i - 1];
      }
    }
  }

  /**
   * `sorted(books.items(), key=entry_date, reverse=True)`: sorted by entry
   * date, newest first, a permutation of the books, and stable: the items
   * of any one date are in their original order.
   */
  function SortDesc(s: Collection): (r: Collection)
    ensures |r| == |s|
    ensures SortedDesc(r)
    ensures multiset(r) == multiset(s)
    ensures forall date :: WithDate(r, date) == WithDate(s, date)
  {
    if s == [] then []
    else
      var sorted := SortDesc(s[..|s| - 1]);
      var r := InsertDesc(s[|s| - 1], sorted);
      SortDescStep(s, sorted, r);
      r
  }

  /** Inserting the last item into the sorted prefix sorts the whole. */
  lemma SortDescStep(s: Collection, sorted: Collection, r: Collection)
    requires s != []
    requires multiset(sorted) == multiset(s[..|s| - 1])
    requires forall date :: WithDate(sorted, date) == WithDate(s[..|s| - 1], date)
    requires multiset(r) == multiset(sorted) + multiset{s[|s| - 1]}
    requires forall date :: WithDate(r, date) == WithDate(sorted, date) + (if EntryDate(s[|s| - 1].1) == date then [s[|s| - 1]] else [])
    ensures |r| == |s| && multiset(r) == multiset(s)
    ensures forall date :: WithDate(r, date) == WithDate(s, date)
  {
    var prefix, last := s[..|s| - 1], s[|s| - 1];
    assert s == prefix + [last];
    assert |r| == |multiset(r)|;
    forall date
      ensures WithDate(r, date) == WithDate(s, date)
    {
      SortDescDate(prefix, last, s, date);
    }
  }

  lemma SortDescDate(prefix: Collection, last: (string, Record), s: Collection, date: string)
    requires s == prefix + [last]
    ensures WithDate(s, date) == WithDate(prefix, date) + (if EntryDate(last.1) == date then [last] else [])
  {
    WithDateAppend(prefix, [last], date);
    assert [last][1..] == [];
  }

  /**
   * `sorted(...)[:3]`: the three most recently added books, newest first;
   * every book left out is no newer than the last one listed.
   */
  function RecentBooks(books: Collection): (r: Collection)
    ensures |r| == if |books| < 3 then |books| else 3
    ensures SortedDesc(r)
    ensures multiset(r) <= multiset(books)
    ensures forall i :: 0 <= i < |r| ==> r[i] in books
    ensures forall e :: e in books && e !in r ==> LexLe(EntryDate(e.1), EntryDate(r[|r| - 1].1))
  {
    var sorted := SortDesc(books);
    var r := sorted[..if |sorted| < 3 then |sorted| else 3];
    TopOfSorted(books, sorted, r);
    r
  }

  /** A prefix of a sorted permutation holds the newest items of the original. */
  lemma TopOfSorted(books: Collection, sorted: Collection, r: Collection)
    requires SortedDesc(sorted) && multiset(sorted) == multiset(books) && |sorted| == |books|
    requires r == sorted[..if |sorted| < 3 then |sorted| else 3]
    ensures SortedDesc(r)
    ensures multiset(r) <= multiset(books)
    ensures forall i :: 0 <= i < |r| ==> r[i] in books
    ensures forall e :: e in books && e !in r ==> LexLe(EntryDate(e.1), EntryDate(r[|r| - 1].1))
  {
    assert sorted == r + sorted[|r|..];
    forall i | 0 <= i < |r|
      ensures r[i] in books
    {
      assert r[i] == sorted[i] && sorted[i] in multiset(sorted);
    }
    forall e | e in books && e !in r
      ensures LexLe(EntryDate(e.1), EntryDate(r[|r| - 1].1))
    {
      assert e in multiset(sorted);
      var q :| 0 <= q < |sorted| && sorted[q] == e;
      assert r[|r| - 1] == sorted[|r| - 1];
    }
  }

  /**
   * `get_reading_stats`: the totals, the count of each status and of each
   * genre (in order of first occurrence), and the three most recent books.
   */
  method ReadingStats(books: Collection, quotes: Collection) returns (s: Stats)
    requires forall i :: 0 <= i < |books| ==> StatsReadable(books[i].1)
    ensures s.totalBooks == |books| && s.totalQuotes == |quotes|
    ensures s.booksByStatus == Tally(Statuses(books))
    ensures Sum(s.booksByStatus) == s.totalBooks
    ensures forall status :: Get(s.booksByStatus, status, 0) == Count(Statuses(books), status)
    ensures s.genres == Tally(AllGenres(books))
    ensures forall genre :: Get(s.genres, genre, 0) == Count(AllGenres(books), genre)
    ensures s.recentBooks == RecentBooks(books)
  {
    var byStatus: Dict<Value, int> := [];
    var genres: Dict<string, int> := [];
    var i := 0;
    assert books[..0] == [];
    while i < |books|
      invariant 0 <= i <= |books|
      invariant byStatus == Tally(Statuses(books[..i]))
      invariant genres == Tally(AllGenres(books[..i]))
    {
      var book := books[i].1;
      var status := Field(book, "status", Text("Unknown"));
      BooksSnoc(books, i);
      TallySnoc(Statuses(books[..i]), status);
      byStatus := Bump(byStatus, status);
      genres := CountInto(genres, Items(book, "genres"), AllGenres(books[..i]));
      i := i + 1;
    }
    assert books[..i] == books;
    TallyMeaning(Statuses(books));
    TallyMeaning(AllGenres(books));
    s := Stats(|books|, |quotes|, byStatus, genres, RecentBooks(books));
  }

  /** Reading one more book adds its status and its genres at the end. */
  lemma BooksSnoc(books: Collection, i: nat)
    requires i < |books|
    ensures Statuses(books[..i + 1]) == Statuses(books[..i]) + [Field(books[i].1, "status", Text("Unknown"))]
    ensures AllGenres(books[..i + 1]) == AllGenres(books[..i]) + Items(books[i].1, "genres")
  {
    assert books[..i + 1][..i] == books[..i];
  }
}
