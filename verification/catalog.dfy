/**
 The read-only tables the rankings consult: the book catalog (`books.csv`) and
 the rating rows (`ratings.csv`), together with the sets and row selections
 the ranking code derives from them.
 */
module Catalog {
  import opened Seqs

  type BookId = int
  type UserId = int
  type Title = string

  /** One catalog row: a book id and its original title. */
  datatype Book = Book(id: BookId, title: Title)

  /** One rating row: a user's rating of a book. */
  datatype Rating = Rating(user: UserId, book: BookId, value: int)

  /** Book ids occurring in the catalog. */
  function CatalogIds(catalog: seq<Book>): set<BookId> {
    set b | b in catalog :: b.id
  }

  /** Ids of the books `user` has a rating row for. */
  function RatedIds(ratings: seq<Rating>, user: UserId): set<BookId> {
    set r | r in ratings && r.user == user :: r.book
  }

  /** Catalog books `user` has not rated: the unrated set of the cascade. */
  function UnratedIds(catalog: seq<Book>, ratings: seq<Rating>, user: UserId): (u: set<BookId>)
    ensures forall b :: b in u ==> b in CatalogIds(catalog) && b !in RatedIds(ratings, user)
    ensures forall row :: row in catalog && row.id !in RatedIds(ratings, user) ==> row.id in u
  {
    CatalogIds(catalog) - RatedIds(ratings, user)
  }

  /** Book ids of `rows`, in order. */
  function IdsOf(rows: seq<Book>): (ids: seq<BookId>)
    ensures |ids| == |rows|
    ensures forall i :: 0 <= i < |rows| ==> ids[i] == rows[i].id
  {
    seq(|rows|, i requires 0 <= i < |rows| => rows[i].id)
  }

  /** Titles of `rows`, in order. */
  function Titles(rows: seq<Book>): (titles: seq<Title>)
    ensures |titles| == |rows|
    ensures forall i :: 0 <= i < |rows| ==> titles[i] == rows[i].title
  {
    seq(|rows|, i requires 0 <= i < |rows| => rows[i].title)
  }

  /** The titles of two blocks of rows are the titles of the first block
      followed by those of the second. */
  lemma TitlesConcat(a: seq<Book>, b: seq<Book>)
    ensures Titles(a + b) == Titles(a) + Titles(b)
  {
  }

  /** Catalog ids are unique: every book has exactly one catalog row. */
  predicate UniqueIds(catalog: seq<Book>) {
    Distinct(IdsOf(catalog))
  }

  /** The catalog rows whose id is one of `ids`, in catalog order: the rows a
      `query('book_id in @ids')` on the catalog yields. */
  function Select(catalog: seq<Book>, ids: seq<BookId>): (rows: seq<Book>)
    ensures forall row :: row in rows <==> row in catalog && row.id in ids
    ensures |rows| <= |catalog|
  {
    if |catalog| == 0 then []
    else
      assert catalog == [catalog[0]] + catalog[1..];
      (if catalog[0].id in ids then [catalog[0]] else []) + Select(catalog[1..], ids)
  }

  /** Selecting no ids selects no rows. */
  lemma {:induction false} SelectNothing(catalog: seq<Book>)
    ensures Select(catalog, []) == []
  {
    if |catalog| > 0 {
      SelectNothing(catalog[1..]);
    }
  }

  /** The selection depends only on the SET of requested ids: the order in
      which they were ranked is not visible in the selected rows. */
  lemma {:induction false} SelectIgnoresIdOrder(catalog: seq<Book>, ids: seq<BookId>, ids': seq<BookId>)
    requires Elems(ids) == Elems(ids')
    ensures Select(catalog, ids) == Select(catalog, ids')
  {
    if |catalog| > 0 {
      assert catalog[0].id in ids <==> catalog[0].id in Elems(ids);
      assert catalog[0].id in ids' <==> catalog[0].id in Elems(ids');
      SelectIgnoresIdOrder(catalog[1..], ids, ids');
    }
  }

  /** Selection follows the catalog: selecting from a concatenation is
      selecting from each part in turn. */
  lemma {:induction false} SelectConcat(a: seq<Book>, b: seq<Book>, ids: seq<BookId>)
    ensures Select(a + b, ids) == Select(a, ids) + Select(b, ids)
  {
    if |a| == 0 {
      assert a + b == b;
    } else {
      assert (a + b)[0] == a[0];
      assert (a + b)[1..] == a[1..] + b;
      SelectConcat(a[1..], b, ids);
    }
  }

  /** From a catalog with unique ids, the selected rows have unique ids too. */
  lemma {:induction false} SelectUniqueIds(catalog: seq<Book>, ids: seq<BookId>)
    requires UniqueIds(catalog)
    ensures UniqueIds(Select(catalog, ids))
  {
    if |catalog| > 0 {
      var rest := catalog[1..];
      assert UniqueIds(rest) by {
        forall i, j | 0 <= i < j < |rest|
          ensures rest[i].id != rest[j].id
        {
          assert IdsOf(catalog)[i + 1] != IdsOf(catalog)[j + 1];
        }
      }
      SelectUniqueIds(rest, ids);
      var tail := Select(rest, ids);
      if catalog[0].id in ids {
        var rows := [catalog[0]] + tail;
        forall i, j | 0 <= i < j < |rows|
          ensures rows[i].id != rows[j].id
        {
          if i == 0 {
            assert rows[j] in rest;
            var m :| 0 <= m < |rest| && rest[m] == rows[j];
            assert IdsOf(catalog)[0] != IdsOf(catalog)[m + 1];
          } else {
            assert IdsOf(tail)[i - 1] != IdsOf(tail)[j - 1];
          }
        }
      }
    }
  }

  /** With unique catalog ids, the selection has exactly one row per distinct
      requested id that is in the catalog, so never more rows than ids. */
  lemma SelectCount(catalog: seq<Book>, ids: seq<BookId>)
    requires UniqueIds(catalog)
    ensures |Select(catalog, ids)| <= |ids|
    ensures Distinct(ids) && Elems(ids) <= CatalogIds(catalog) ==> |Select(catalog, ids)| == |ids|
  {
    var rows := Select(catalog, ids);
    SelectUniqueIds(catalog, ids);
    var rowIds := IdsOf(rows);
    assert Elems(rowIds) <= Elems(ids) by {
      forall x | x in Elems(rowIds)
        ensures x in Elems(ids)
      {
        var i :| 0 <= i < |rowIds| && rowIds[i] == x;
        assert rows[i] in rows;
      }
    }
    DistinctCard(rowIds);
    ElemsCard(ids);
    SubsetCard(Elems(rowIds), Elems(ids));
    if Distinct(ids) && Elems(ids) <= CatalogIds(catalog) {
      assert Elems(ids) <= Elems(rowIds) by {
        forall x | x in Elems(ids)
          ensures x in Elems(rowIds)
        {
          var row :| row in catalog && row.id == x;
          assert row in rows;
          var i :| 0 <= i < |rows| && rows[i] == row;
          assert rowIds[i] == x;
        }
      }
      SameElemsSameLength(rowIds, ids);
    }
  }

  /** Rows selected for two disjoint id lists from a catalog with unique ids
      together still have unique ids. */
  lemma SelectDisjointUnique(catalog: seq<Book>, ids: seq<BookId>, ids': seq<BookId>)
    requires UniqueIds(catalog)
    requires forall b :: b in ids ==> b !in ids'
    ensures UniqueIds(Select(catalog, ids) + Select(catalog, ids'))
  {
    var a := Select(catalog, ids);
    var b := Select(catalog, ids');
    SelectUniqueIds(catalog, ids);
    SelectUniqueIds(catalog, ids');
    assert IdsOf(a + b) == IdsOf(a) + IdsOf(b);
    forall i | 0 <= i < |a|
      ensures IdsOf(a)[i] in ids
    {
      assert a[i] in a;
    }
    forall j | 0 <= j < |b|
      ensures IdsOf(b)[j] in ids'
    {
      assert b[j] in b;
    }
    DistinctConcat(IdsOf(a), IdsOf(b));
  }

  /** Number of catalog rows whose id is `book`. */
  function MatchCount(catalog: seq<Book>, book: BookId): nat {
    if |catalog| == 0 then 0
    else (if catalog[0].id == book then 1 else 0) + MatchCount(catalog[1..], book)
  }

  /** The ratings table left-joined with the catalog on the book id, keeping
      the rating columns: a rating row appears once for every catalog row with
      its book id, and once (with no title) when there is none. */
  function Joined(ratings: seq<Rating>, catalog: seq<Book>): (rows: seq<Rating>)
    ensures forall r :: r in rows <==> r in ratings
  {
    if |ratings| == 0 then []
    else
      var copies := seq(Max(1, MatchCount(catalog, ratings[0].book)), i => ratings[0]);
      assert copies[0] == ratings[0];
      assert ratings == [ratings[0]] + ratings[1..];
      copies + Joined(ratings[1..], catalog)
  }

  /** The merge goes row by row: merging a concatenation of rating tables
      merges each part in turn, so the merged rows keep the ratings' order. */
  lemma {:induction false} JoinedConcat(a: seq<Rating>, b: seq<Rating>, catalog: seq<Book>)
    ensures Joined(a + b, catalog) == Joined(a, catalog) + Joined(b, catalog)
  {
    if |a| == 0 {
      assert a + b == b;
    } else {
      assert (a + b)[0] == a[0];
      assert (a + b)[1..] == a[1..] + b;
      JoinedConcat(a[1..], b, catalog);
      var copies := seq(Max(1, MatchCount(catalog, a[0].book)), i => a[0]);
      AppendAssoc(copies, Joined(a[1..], catalog), Joined(b, catalog));
    }
  }

  /** One rating row appears once per catalog row with its book id, and once
      when no catalog row has it. */
  lemma JoinedSingle(r: Rating, catalog: seq<Book>)
    ensures |Joined([r], catalog)| == Max(1, MatchCount(catalog, r.book))
    ensures forall i :: 0 <= i < |Joined([r], catalog)| ==> Joined([r], catalog)[i] == r
  {
  }

  /** The rows of `rows` by `user` for `book`, in order. */
  function PairRows(rows: seq<Rating>, user: UserId, book: BookId): (m: seq<Rating>)
    ensures forall r :: r in m <==> r in rows && r.user == user && r.book == book
  {
    if |rows| == 0 then []
    else
      assert rows == [rows[0]] + rows[1..];
      var rest := PairRows(rows[1..], user, book);
      if rows[0].user == user && rows[0].book == book then [rows[0]] + rest else rest
  }

  /** The first row a non-empty pair selection yields is the first row of
      `rows` for that pair. */
  lemma {:induction false} PairRowsFirst(rows: seq<Rating>, user: UserId, book: BookId)
    requires PairRows(rows, user, book) != []
    ensures exists k :: 0 <= k < |rows| && rows[k] == PairRows(rows, user, book)[0] &&
              rows[k].user == user && rows[k].book == book &&
              forall j :: 0 <= j < k ==> !(rows[j].user == user && rows[j].book == book)
  {
    if !(rows[0].user == user && rows[0].book == book) {
      var tail := rows[1..];
      assert PairRows(rows, user, book) == PairRows(tail, user, book);
      PairRowsFirst(tail, user, book);
      var k :| 0 <= k < |tail| && tail[k] == PairRows(tail, user, book)[0] &&
               tail[k].user == user && tail[k].book == book &&
               forall j :: 0 <= j < k ==> !(tail[j].user == user && tail[j].book == book);
      assert rows[k + 1] == tail[k];
      forall j | 0 <= j < k + 1
        ensures !(rows[j].user == user && rows[j].book == book)
      {
        if j > 0 {
          assert rows[j] == tail[j - 1];
        }
      }
    } else {
      assert rows[0] == PairRows(rows, user, book)[0];
    }
  }

  /** The first row a non-empty selection yields is the first catalog row with
      a requested id. */
  lemma {:induction false} SelectFirst(catalog: seq<Book>, ids: seq<BookId>)
    requires Select(catalog, ids) != []
    ensures exists k :: 0 <= k < |catalog| && catalog[k] == Select(catalog, ids)[0] &&
              catalog[k].id in ids && forall j :: 0 <= j < k ==> catalog[j].id !in ids
  {
    if catalog[0].id !in ids {
      var tail := catalog[1..];
      assert Select(catalog, ids) == Select(tail, ids);
      SelectFirst(tail, ids);
      var k :| 0 <= k < |tail| && tail[k] == Select(tail, ids)[0] &&
               tail[k].id in ids && forall j :: 0 <= j < k ==> tail[j].id !in ids;
      assert catalog[k + 1] == tail[k];
      forall j | 0 <= j < k + 1
        ensures catalog[j].id !in ids
      {
        if j > 0 {
          assert catalog[j] == tail[j - 1];
        }
      }
    }
  }

  /** A book id absent from the catalog matches no catalog row. */
  lemma {:induction false} MatchCountAbsent(catalog: seq<Book>, book: BookId)
    requires forall i :: 0 <= i < |catalog| ==> catalog[i].id != book
    ensures MatchCount(catalog, book) == 0
  {
    if |catalog| > 0 {
      MatchCountAbsent(catalog[1..], book);
    }
  }

  /** With unique catalog ids a book id matches at most one catalog row. */
  lemma {:induction false} MatchCountUnique(catalog: seq<Book>, book: BookId)
    requires UniqueIds(catalog)
    ensures MatchCount(catalog, book) <= 1
  {
    if |catalog| > 0 {
      var rest := catalog[1..];
      assert UniqueIds(rest) by {
        forall i, j | 0 <= i < j < |rest|
          ensures rest[i].id != rest[j].id
        {
          assert IdsOf(catalog)[i + 1] != IdsOf(catalog)[j + 1];
        }
      }
      MatchCountUnique(rest, book);
      if catalog[0].id == book {
        forall i | 0 <= i < |rest|
          ensures rest[i].id != book
        {
          assert IdsOf(catalog)[0] != IdsOf(catalog)[i + 1];
        }
        MatchCountAbsent(rest, book);
      }
    }
  }

  /** With unique catalog ids the join neither drops nor repeats a rating row:
      it is the ratings table, row for row. */
  lemma {:induction false} JoinedUniqueIsRatings(ratings: seq<Rating>, catalog: seq<Book>)
    requires UniqueIds(catalog)
    ensures Joined(ratings, catalog) == ratings
  {
    if |ratings| > 0 {
      MatchCountUnique(catalog, ratings[0].book);
      JoinedUniqueIsRatings(ratings[1..], catalog);
      assert ratings == [ratings[0]] + ratings[1..];
    }
  }

  /** The catalog rows for `ids` in the order of `ids`: one selection per id,
      concatenated. This is the rank-ordered title lookup. */
  function RankedRows(catalog: seq<Book>, ids: seq<BookId>): (rows: seq<Book>)
    ensures forall row :: row in rows <==> row in catalog && row.id in ids
  {
    if |ids| == 0 then []
    else
      assert ids == [ids[0]] + ids[1..];
      Select(catalog, [ids[0]]) + RankedRows(catalog, ids[1..])
  }

  /** A requested id of the catalog selects at least one row. */
  lemma SelectPresent(catalog: seq<Book>, book: BookId)
    requires book in CatalogIds(catalog)
    ensures Select(catalog, [book]) != []
  {
    var row :| row in catalog && row.id == book;
    assert row in Select(catalog, [book]);
  }

  /** The title of the first catalog row with id `book`: what indexing the
      title column of `query('book_id == @book')` at 0 yields. */
  function TitleOf(catalog: seq<Book>, book: BookId): (t: Title)
    requires book in CatalogIds(catalog)
    ensures exists k :: 0 <= k < |catalog| && catalog[k].id == book && t == catalog[k].title &&
              forall j :: 0 <= j < k ==> catalog[j].id != book
  {
    SelectPresent(catalog, book);
    SelectFirst(catalog, [book]);
    Select(catalog, [book])[0].title
  }

  /** With unique catalog ids a book's title is the title of its one row. */
  lemma TitleOfUnique(catalog: seq<Book>, row: Book)
    requires UniqueIds(catalog)
    requires row in catalog
    ensures TitleOf(catalog, row.id) == row.title
  {
    assert row.id in CatalogIds(catalog);
    var k :| 0 <= k < |catalog| && catalog[k].id == row.id && TitleOf(catalog, row.id) == catalog[k].title &&
             forall j :: 0 <= j < k ==> catalog[j].id != row.id;
    var m :| 0 <= m < |catalog| && catalog[m] == row;
    assert IdsOf(catalog)[m] == IdsOf(catalog)[k];
    assert m == k;
  }

  /** With unique catalog ids, a catalog id selects exactly its one row. */
  lemma SelectSingle(catalog: seq<Book>, book: BookId)
    requires UniqueIds(catalog)
    requires book in CatalogIds(catalog)
    ensures |Select(catalog, [book])| == 1
    ensures Select(catalog, [book])[0].id == book
  {
    var one := Select(catalog, [book]);
    assert Elems([book]) <= CatalogIds(catalog);
    SelectCount(catalog, [book]);
    assert one[0] in one;
  }

  /** With unique catalog ids and every id in the catalog, the rank-ordered
      rows carry the requested ids position by position, each row being the
      one its id selects. */
  lemma {:induction false} RankedRowsFollowIds(catalog: seq<Book>, ids: seq<BookId>)
    requires UniqueIds(catalog)
    requires forall i :: 0 <= i < |ids| ==> ids[i] in CatalogIds(catalog)
    ensures |RankedRows(catalog, ids)| == |ids|
    ensures forall i :: 0 <= i < |ids| ==>
              && RankedRows(catalog, ids)[i].id == ids[i]
              && RankedRows(catalog, ids)[i].title == TitleOf(catalog, ids[i])
  {
    if |ids| > 0 {
      var tail := ids[1..];
      SelectSingle(catalog, ids[0]);
      RankedRowsFollowIds(catalog, tail);
      var one := Select(catalog, [ids[0]]);
      var rest := RankedRows(catalog, tail);
      var all := RankedRows(catalog, ids);
      assert all == one + rest;
      forall i | 0 <= i < |ids|
        ensures all[i].id == ids[i] && all[i].title == TitleOf(catalog, ids[i])
      {
        if i > 0 {
          assert all[i] == rest[i - 1] && tail[i - 1] == ids[i];
        }
      }
    }
  }

  /** For distinct ids in a catalog with unique ids, the rank-ordered rows
      are the selected rows reordered: the same rows, each once. */
  lemma RankedRowsReorderSelect(catalog: seq<Book>, ids: seq<BookId>)
    requires UniqueIds(catalog) && Distinct(ids)
    requires forall i :: 0 <= i < |ids| ==> ids[i] in CatalogIds(catalog)
    ensures multiset(RankedRows(catalog, ids)) == multiset(Select(catalog, ids))
  {
    var ranked := RankedRows(catalog, ids);
    var selected := Select(catalog, ids);
    RankedRowsFollowIds(catalog, ids);
    SelectUniqueIds(catalog, ids);
    assert Distinct(ranked) by {
      forall i, j | 0 <= i < j < |ranked|
        ensures ranked[i] != ranked[j]
      {
        assert ranked[i].id == ids[i] && ranked[j].id == ids[j];
      }
    }
    assert Distinct(selected) by {
      forall i, j | 0 <= i < j < |selected|
        ensures selected[i] != selected[j]
      {
        assert IdsOf(selected)[i] != IdsOf(selected)[j];
      }
    }
    assert Elems(ranked) == Elems(selected);
    SameElemsSameMultiset(ranked, selected);
  }

  /** Titles of two rank-ordered blocks, position by position: the first
      block's ids' titles, then the second's. */
  lemma RankedTitlesPositions(catalog: seq<Book>, a: seq<BookId>, b: seq<BookId>, titles: seq<Title>)
    requires UniqueIds(catalog)
    requires forall i :: 0 <= i < |a| ==> a[i] in CatalogIds(catalog)
    requires forall i :: 0 <= i < |b| ==> b[i] in CatalogIds(catalog)
    requires titles == Titles(RankedRows(catalog, a) + RankedRows(catalog, b))
    ensures |titles| == |a| + |b|
    ensures forall i :: 0 <= i < |a| ==> titles[i] == TitleOf(catalog, a[i])
    ensures forall i :: 0 <= i < |b| ==> titles[|a| + i] == TitleOf(catalog, b[i])
  {
    var ra := RankedRows(catalog, a);
    var rb := RankedRows(catalog, b);
    RankedRowsFollowIds(catalog, a);
    RankedRowsFollowIds(catalog, b);
    TitlesConcat(ra, rb);
    var ta, tb := Titles(ra), Titles(rb);
    forall i | 0 <= i < |a|
      ensures titles[i] == TitleOf(catalog, a[i])
    {
      assert titles[i] == ta[i] == ra[i].title;
    }
    forall i | 0 <= i < |b|
      ensures titles[|a| + i] == TitleOf(catalog, b[i])
    {
      assert titles[|a| + i] == tb[i] == rb[i].title;
    }
  }
}
