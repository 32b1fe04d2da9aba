/// `search_by_multiple_terms`: a genre keyword and one term that names either an
/// author or a title.
module Search {
  import opened Tables

  datatype Field = Author | Title

  function FieldOf(b: Book, field: Field): string
  {
    match field
    case Author => b.author
    case Title => b.title
  }

  /** The inventory rows whose `field` equals `term` and, when a genre is given,
      whose book_type is that genre, in table order. */
  function Select(inventory: seq<Book>, field: Field, term: string, genre: Option<string>): (r: seq<Book>)
    ensures forall b :: b in r <==>
      b in inventory && FieldOf(b, field) == term && (genre.None? || b.bookType == genre.value)
    ensures |r| <= |inventory|
  {
    if inventory == [] then []
    else
      var b := inventory[0];
      var rest := Select(inventory[1..], field, term, genre);
      assert forall x :: x in inventory <==> x == b || x in inventory[1..];
      if FieldOf(b, field) == term && (genre.None? || b.bookType == genre.value) then [b] + rest else rest
  }

  /** The book_type stored for a genre keyword; None for every other keyword. */
  function Genre(kind: string): Option<string>
  {
    if kind == "fiction" then Some("Fiction")
    else if kind == "non-fiction" then Some("Non-fiction")
    else None
  }

  /** What search_by_author and search_by_title hand back: exec_get_all returns
      the fetched list, which is empty when nothing matches and never None. */
  function Fetched(rows: seq<Book>): Option<seq<Book>>
  {
    Some(rows)
  }

  /** search_by_multiple_terms as written: the author query is compared with None,
      so its branch is taken whether or not any author matches. */
  function SearchByMultipleTermsAsWritten(inventory: seq<Book>, kind: string, term: string): (r: Option<seq<Book>>)
    ensures r.None? <==> Genre(kind).None?
  {
    var genre := Genre(kind);
    if genre.None? then None
    else if Fetched(Select(inventory, Author, term, None)) != None then Some(Select(inventory, Author, term, genre))
    else if Fetched(Select(inventory, Title, term, None)) != None then Some(Select(inventory, Title, term, genre))
    else None
  }

  /** The combined search with the fall-back the code reaches for: books of the
      genre by that author when the term names an author, books of the genre with
      that title otherwise. */
  function SearchByMultipleTerms(inventory: seq<Book>, kind: string, term: string): (r: Option<seq<Book>>)
    ensures r.None? <==> Genre(kind).None?
    ensures r.Some? ==> forall b :: b in r.value <==>
      && b in inventory
      && b.bookType == Genre(kind).value
      && (if exists i | 0 <= i < |inventory| :: inventory[i].author == term then b.author == term
          else b.title == term)
  {
    var genre := Genre(kind);
    if genre.None? then None
    else
      var byAuthor := Select(inventory, Author, term, None);
      if byAuthor != [] then
        assert byAuthor[0] in byAuthor;
        Some(Select(inventory, Author, term, genre))
      else Some(Select(inventory, Title, term, genre))
  }

  /** As written, the title branch is never reached: for either genre keyword the
      answer is the author match, empty or not. */
  lemma AsWrittenIgnoresTitles(inventory: seq<Book>, kind: string, term: string)
    requires Genre(kind).Some?
    ensures SearchByMultipleTermsAsWritten(inventory, kind, term) ==
      Some(Select(inventory, Author, term, Genre(kind)))
  {
  }

  /** A fiction title that no author shares: the code as written finds nothing,
      the intended search finds the book. */
  lemma TitleSearchCounterexample()
    ensures var thief := Book("The Lightning Thief", "Fiction", "Rick Riordan", 4);
      && SearchByMultipleTermsAsWritten([thief], "fiction", "The Lightning Thief") == Some([])
      && SearchByMultipleTerms([thief], "fiction", "The Lightning Thief") == Some([thief])
  {
    var thief := Book("The Lightning Thief", "Fiction", "Rick Riordan", 4);
    assert [thief][1..] == [];
    assert Select([thief], Author, "The Lightning Thief", None) == [];
    assert Select([thief], Title, "The Lightning Thief", Some("Fiction")) == [thief] + [];
    assert Genre("fiction") == Some("Fiction");
    assert [thief] + [] == [thief];
  }
}
