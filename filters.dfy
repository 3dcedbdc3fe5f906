/**
 * The search and filter panels of the "My Books" and "My Quotes" pages:
 * which records the page lists for the terms the user typed. Every text
 * test is a case-insensitive substring test, and an empty term accepts
 * every record.
 */
module Filters {
  import opened Strings
  import opened Dicts
  import opened Records

  /** `not term or term.lower() in text.lower()`. */
  predicate Mentions(text: string, term: string) {
    term == [] || Contains(Lower(text), Lower(term))
  }

  /** `not term or any(term.lower() in item.lower() for item in items)`. */
  predicate AnyMentions(items: seq<string>, term: string) {
    term == [] || exists i :: 0 <= i < |items| && Contains(Lower(items[i]), Lower(term))
  }

  // ---------------------------------------------------------------------------
  // Books

  /**
   * The fields the book filter reads have the types it needs: the title and
   * author are read only for a non-empty search, the genres only for a
   * non-empty genre filter, and the rating always.
   */
  predicate BookFilterable(book: Record, search: string, genreFilter: string) {
    && (search != [] ==> HoldsText(book, "title") && HoldsText(book, "author"))
    && (genreFilter != [] ==> HoldsIterable(book, "genres"))
    && HoldsNumber(book, "rating")
  }

  /** `book.get('rating', 0)`. */
  function Rating(book: Record): (r: int)
    requires HoldsNumber(book, "rating")
    ensures "rating" !in book ==> r == 0
    ensures "rating" in book ==> book["rating"] == Number(r)
  {
    Field(book, "rating", Number(0)).number
  }

  /**
   * The book is listed: the search term is in its title or its author, the
   * genre filter is in one of its genres, the status is the one chosen (or
   * "All" is chosen) and the rating is at least the minimum.
   */
  predicate BookShown(book: Record, search: string, genreFilter: string, statusFilter: string, minRating: int)
    requires BookFilterable(book, search, genreFilter)
  {
    && (Mentions(TextField(book, "title", ""), search) || Mentions(TextField(book, "author", ""), search))
    && AnyMentions(Items(book, "genres"), genreFilter)
    && (statusFilter == "All" || Field(book, "status", Text("")) == Text(statusFilter))
    && Rating(book) >= minRating
  }

  /** Every stored book can be filtered. */
  predicate AllFilterable(books: Collection, search: string, genreFilter: string) {
    forall i :: 0 <= i < |books| ==> BookFilterable(books[i].1, search, genreFilter)
  }

  /** The books listed, in the order they are stored. */
  function ShownBooks(books: Collection, search: string, genreFilter: string, statusFilter: string, minRating: int): (r: Collection)
    requires AllFilterable(books, search, genreFilter)
    ensures |r| <= |books|
    ensures forall j :: 0 <= j < |r| ==> r[j] in books && BookShown(r[j].1, search, genreFilter, statusFilter, minRating)
    ensures forall i :: 0 <= i < |books| && BookShown(books[i].1, search, genreFilter, statusFilter, minRating) ==> books[i] in r
  {
    if books == [] then []
    else
      var rest := ShownBooks(books[..|books| - 1], search, genreFilter, statusFilter, minRating);
      var last := books[|books| - 1];
      if BookShown(last.1, search, genreFilter, statusFilter, minRating) then rest + [last] else rest
  }

  /** The loop that builds `filtered_books`, one stored book at a time. */
  method FilterBooks(books: Collection, search: string, genreFilter: string, statusFilter: string, minRating: int)
    returns (shown: Collection)
    requires AllFilterable(books, search, genreFilter)
    ensures shown == ShownBooks(books, search, genreFilter, statusFilter, minRating)
  {
    shown := [];
    var i := 0;
    while i < |books|
      invariant 0 <= i <= |books|
      invariant shown == ShownBooks(books[..i], search, genreFilter, statusFilter, minRating)
    {
      assert books[..i + 1][..i] == books[..i];
      if BookShown(books[i].1, search, genreFilter, statusFilter, minRating) {
        shown := shown + [books[i]];
      }
      i := i + 1;
    }
    assert books[..i] == books;
  }

  /**
   * The list keeps the stored order: filtering two runs of books one after
   * the other lists the first run's books before the second's.
   */
  lemma {:induction false} ShownBooksAppend(a: Collection, b: Collection, search: string, genreFilter: string, statusFilter: string, minRating: int)
    requires AllFilterable(a, search, genreFilter) && AllFilterable(b, search, genreFilter)
    ensures AllFilterable(a + b, search, genreFilter)
    ensures ShownBooks(a + b, search, genreFilter, statusFilter, minRating)
      == ShownBooks(a, search, genreFilter, statusFilter, minRating) + ShownBooks(b, search, genreFilter, statusFilter, minRating)
  {
    AppendFilterable(a, b, search, genreFilter);
    if b == [] {
      assert a + b == a;
    } else {
      var init, last := b[..|b| - 1], b[|b| - 1];
      assert AllFilterable(init, search, genreFilter);
      ShownBooksAppend(a, init, search, genreFilter, statusFilter, minRating);
      assert (a + b)[..|a + b| - 1] == a + init;
      assert (a + b)[|a + b| - 1] == last;
    }
  }

  lemma AppendFilterable(a: Collection, b: Collection, search: string, genreFilter: string)
    requires AllFilterable(a, search, genreFilter) && AllFilterable(b, search, genreFilter)
    ensures AllFilterable(a + b, search, genreFilter)
  {
    forall i | 0 <= i < |a + b|
      ensures BookFilterable((a + b)[i].1, search, genreFilter)
    {
      if i >= |a| {
        assert (a + b)[i] == b[i - |a|];
      }
    }
  }

  /** With every filter left empty, exactly the books rated at least the minimum are listed. */
  lemma OpenFiltersShowRated(book: Record, minRating: int)
    requires HoldsNumber(book, "rating")
    ensures BookShown(book, "", "", "All", minRating) <==> Rating(book) >= minRating
  {
  }

  /**
   * A book without a rating counts as rated 0, so it is never listed while
   * the minimum rating is 1 or more (the slider's range is 1 to 5).
   */
  lemma UnratedHidden(book: Record, search: string, genreFilter: string, statusFilter: string, minRating: int)
    requires BookFilterable(book, search, genreFilter)
    requires "rating" !in book && minRating >= 1
    ensures !BookShown(book, search, genreFilter, statusFilter, minRating)
  {
  }

  /** The search term's case does not matter. */
  lemma BookSearchIgnoresCase(book: Record, search: string, genreFilter: string, statusFilter: string, minRating: int)
    requires BookFilterable(book, search, genreFilter)
    ensures BookFilterable(book, Lower(search), genreFilter)
    ensures BookShown(book, Lower(search), genreFilter, statusFilter, minRating)
        <==> BookShown(book, search, genreFilter, statusFilter, minRating)
  {
    LowerIdempotent(search);
  }

  /** Typing more of the search term can only remove books from the list. */
  lemma BookSearchNarrows(book: Record, term: string, more: string, genreFilter: string, statusFilter: string, minRating: int)
    requires BookFilterable(book, term + more, genreFilter) && BookFilterable(book, term, genreFilter)
    requires BookShown(book, term + more, genreFilter, statusFilter, minRating)
    ensures BookShown(book, term, genreFilter, statusFilter, minRating)
  {
    MentionsNarrows(TextField(book, "title", ""), term, more);
    MentionsNarrows(TextField(book, "author", ""), term, more);
  }

  // ---------------------------------------------------------------------------
  // Quotes

  /**
   * The fields the quote filter reads have the types it needs: the text for
   * a non-empty search, the book title for a non-empty book filter, the tags
   * for a non-empty tag filter.
   */
  predicate QuoteFilterable(quote: Record, search: string, bookFilter: string, tagFilter: string) {
    && (search != [] ==> HoldsText(quote, "text"))
    && (bookFilter != [] ==> HoldsText(quote, "book_title"))
    && (tagFilter != [] ==> HoldsIterable(quote, "tags"))
  }

  /**
   * The quote is listed: the search term is in its text, the book filter is
   * in its book title ("Unknown Book" when it has none) and the tag filter
   * is in one of its tags.
   */
  predicate QuoteShown(quote: Record, search: string, bookFilter: string, tagFilter: string)
    requires QuoteFilterable(quote, search, bookFilter, tagFilter)
  {
    && Mentions(TextField(quote, "text", ""), search)
    && Mentions(TextField(quote, "book_title", "Unknown Book"), bookFilter)
    && AnyMentions(Items(quote, "tags"), tagFilter)
  }

  /** A quote without tags is hidden as soon as a tag filter is typed. */
  lemma UntaggedHidden(quote: Record, search: string, bookFilter: string, tagFilter: string)
    requires QuoteFilterable(quote, search, bookFilter, tagFilter)
    requires "tags" !in quote && tagFilter != []
    ensures !QuoteShown(quote, search, bookFilter, tagFilter)
  {
  }

  /** Typing more of the text search can only remove quotes from the list. */
  lemma QuoteTextNarrows(quote: Record, search: string, bookFilter: string, tagFilter: string, more: string)
    requires QuoteFilterable(quote, search + more, bookFilter, tagFilter)
    ensures QuoteFilterable(quote, search, bookFilter, tagFilter)
    ensures QuoteShown(quote, search + more, bookFilter, tagFilter) ==> QuoteShown(quote, search, bookFilter, tagFilter)
  {
    MentionsNarrows(TextField(quote, "text", ""), search, more);
  }

  /** Typing more of the book filter can only remove quotes from the list. */
  lemma QuoteBookNarrows(quote: Record, search: string, bookFilter: string, tagFilter: string, more: string)
    requires QuoteFilterable(quote, search, bookFilter + more, tagFilter)
    ensures QuoteFilterable(quote, search, bookFilter, tagFilter)
    ensures QuoteShown(quote, search, bookFilter + more, tagFilter) ==> QuoteShown(quote, search, bookFilter, tagFilter)
  {
    MentionsNarrows(TextField(quote, "book_title", "Unknown Book"), bookFilter, more);
  }

  /** Typing more of the tag filter can only remove quotes from the list. */
  lemma QuoteTagNarrows(quote: Record, search: string, bookFilter: string, tagFilter: string, more: string)
    requires QuoteFilterable(quote, search, bookFilter, tagFilter + more)
    ensures QuoteFilterable(quote, search, bookFilter, tagFilter)
    ensures QuoteShown(quote, search, bookFilter, tagFilter + more) ==> QuoteShown(quote, search, bookFilter, tagFilter)
  {
    AnyMentionsNarrows(Items(quote, "tags"), tagFilter, more);
  }

  // ---------------------------------------------------------------------------
  // A longer term matches less

  /** A text holding `term + more` holds `term`. */
  lemma ContainsPrefix(hay: string, term: string, more: string)
    requires Contains(hay, term + more)
    ensures Contains(hay, term)
  {
    var i :| 0 <= i <= |hay| - |term + more| && OccursAt(hay, term + more, i);
    assert hay[i..i + |term|] == (term + more)[..|term|];
    assert OccursAt(hay, term, i);
  }

  lemma MentionsNarrows(text: string, term: string, more: string)
    ensures Mentions(text, term + more) ==> Mentions(text, term)
  {
    if term != [] && Mentions(text, term + more) {
      LowerAppend(term, more);
      ContainsPrefix(Lower(text), Lower(term), Lower(more));
    }
  }

  lemma AnyMentionsNarrows(items: seq<string>, term: string, more: string)
    ensures AnyMentions(items, term + more) ==> AnyMentions(items, term)
  {
    if term != [] && AnyMentions(items, term + more) {
      var i :| 0 <= i < |items| && Contains(Lower(items[i]), Lower(term + more));
      LowerAppend(term, more);
      ContainsPrefix(Lower(items[i]), Lower(term), Lower(more));
    }
  }
}
