/**
 The single-pair report of `recomenda_livro_cf`: the title of a book, whether
 the user has already rated it (and with what rating), and the CF model's
 estimate for the pair.
 */
module PairLookup {
  import opened Catalog

  /** The user's earlier rating of the book, if any. */
  datatype Prior = NotRated | RatedAs(value: int)

  /** The report the source returns for a (user, book) pair. */
  datatype PairReport = PairReport(title: Title, user: UserId, prior: Prior, estimate: real)

  /** A lookup either finds the book in the catalog or fails on it: the source
      indexes the first title of an empty selection, which raises. */
  datatype Lookup = Found(report: PairReport) | UnknownBook(book: BookId)

  /** The lookup for `user` and `book`; `estimate` is the CF model's
      prediction for a pair. */
  function LookupPair(
    catalog: seq<Book>, ratings: seq<Rating>, estimate: (UserId, BookId) -> real,
    user: UserId, book: BookId): (result: Lookup)
    ensures result.UnknownBook? <==> book !in CatalogIds(catalog)
    ensures result.UnknownBook? ==> result.book == book
    ensures result.Found? ==>
              exists k :: 0 <= k < |catalog| && catalog[k].id == book &&
                result.report.title == catalog[k].title &&
                forall j :: 0 <= j < k ==> catalog[j].id != book
    ensures result.Found? ==> result.report.user == user && result.report.estimate == estimate(user, book)
    ensures result.Found? ==>
              (result.report.prior.NotRated? <==>
                 forall r :: r in ratings ==> !(r.user == user && r.book == book))
    ensures result.Found? && result.report.prior.RatedAs? ==>
              exists k :: 0 <= k < |ratings| && ratings[k].user == user && ratings[k].book == book &&
                result.report.prior.value == ratings[k].value &&
                forall j :: 0 <= j < k ==> !(ratings[j].user == user && ratings[j].book == book)
  {
    var rows := Select(catalog, [book]);
    if |rows| == 0 then
      assert book !in CatalogIds(catalog) by {
        forall row | row in catalog
          ensures row.id != book
        {
          assert row !in rows;
        }
      }
      UnknownBook(book)
    else
      assert rows[0] in rows;
      var joinedRows := PairRows(Joined(ratings, catalog), user, book);
      var prior := if joinedRows == [] then NotRated
                   else assert joinedRows[0] in joinedRows; PriorRating(ratings, user, book);
      Found(PairReport(TitleOf(catalog, book), user, prior, estimate(user, book)))
  }

  /** The value of the first rating row of `user` for `book`, read from the
      ratings table once the joined table has shown one exists. */
  function PriorRating(ratings: seq<Rating>, user: UserId, book: BookId): (prior: Prior)
    requires exists r :: r in ratings && r.user == user && r.book == book
    ensures prior.RatedAs?
    ensures exists k :: 0 <= k < |ratings| && ratings[k].user == user && ratings[k].book == book &&
              prior.value == ratings[k].value &&
              forall j :: 0 <= j < k ==> !(ratings[j].user == user && ratings[j].book == book)
  {
    var matching := PairRows(ratings, user, book);
    var r :| r in ratings && r.user == user && r.book == book;
    assert r in matching;
    PairRowsFirst(ratings, user, book);
    RatedAs(matching[0].value)
  }

  /** The lookup's prior agrees with the rated set the cascade excludes: a
      found book shows a rating exactly when the user's rated ids contain it. */
  lemma PriorMatchesRatedIds(
    catalog: seq<Book>, ratings: seq<Rating>, estimate: (UserId, BookId) -> real,
    user: UserId, book: BookId)
    requires book in CatalogIds(catalog)
    ensures LookupPair(catalog, ratings, estimate, user, book).Found?
    ensures LookupPair(catalog, ratings, estimate, user, book).report.prior.RatedAs? <==>
              book in RatedIds(ratings, user)
    ensures LookupPair(catalog, ratings, estimate, user, book).report.prior.NotRated? <==>
              book in UnratedIds(catalog, ratings, user)
  {
    var result := LookupPair(catalog, ratings, estimate, user, book);
    if book in RatedIds(ratings, user) {
      var r :| r in ratings && r.user == user && r.book == book;
      assert !(forall r' :: r' in ratings ==> !(r'.user == user && r'.book == book));
    }
  }

  /** With unique catalog ids the title is the title of the book's one row. */
  lemma LookupTitleUnique(
    catalog: seq<Book>, ratings: seq<Rating>, estimate: (UserId, BookId) -> real,
    user: UserId, row: Book)
    requires UniqueIds(catalog)
    requires row in catalog
    ensures LookupPair(catalog, ratings, estimate, user, row.id).Found?
    ensures LookupPair(catalog, ratings, estimate, user, row.id).report.title == row.title
  {
    TitleOfUnique(catalog, row);
  }
}
