/**
 Worked cascades on a three-book catalog: the hybrid example, the CF-only
 path when no CF pick is asked for, and a run where catalog order and rank
 order disagree.
 */
module Scenarios {
  import opened Seqs
  import opened StableTopK
  import opened Catalog
  import opened Cascade

  const User: UserId := 7

  /** Books 1 "A", 2 "B" and 3 "C", in that catalog order. */
  function ThreeBooks(): seq<Book> {
    [Book(1, "A"), Book(2, "B"), Book(3, "C")]
  }

  /** The user has rated book 1 only. */
  function RatedOne(): seq<Rating> {
    [Rating(User, 1, 5)]
  }

  /** The unrated set of the example is {2, 3}. */
  lemma UnratedTwoThree()
    ensures UnratedIds(ThreeBooks(), RatedOne(), User) == {2, 3}
    ensures Enumerates([2, 3], UnratedIds(ThreeBooks(), RatedOne(), User))
  {
    var catalog := ThreeBooks();
    assert catalog[0] in catalog && catalog[1] in catalog && catalog[2] in catalog;
    assert CatalogIds(catalog) == {1, 2, 3};
    assert RatedOne()[0] in RatedOne();
    assert RatedIds(RatedOne(), User) == {1};
    assert Elems([2, 3]) == {2, 3} by {
      assert [2, 3][0] == 2 && [2, 3][1] == 3;
    }
  }

  /** The corpus covers all three books; the CF model knows 2 and 3 and
      estimates 4.5 for book 2 and 3.0 for book 3. */
  function HybridModel(): CfModel {
    CfModel({2, 3}, (u: UserId, b: BookId) => if b == 2 then 4.5 else if b == 3 then 3.0 else 0.0)
  }

  /** Similarity 0.8 between books 2 and 3, 0.1 between books 1 and 2. */
  function HybridIndex(): ContentIndex {
    ContentIndex([1, 2, 3], (a: BookId, b: BookId) =>
      if (a == 2 && b == 3) || (a == 3 && b == 2) then 0.8
      else if (a == 1 && b == 2) || (a == 2 && b == 1) then 0.1
      else 0.0)
  }

  /** Both unrated books are CF candidates, in iteration order. */
  lemma CandidatesTwoThree(model: CfModel)
    requires model.known == {2, 3}
    ensures Candidates([2, 3], HybridIndex(), model) == [2, 3]
  {
    var index := HybridIndex();
    assert index.corpus[1] == 2 && index.corpus[2] == 3;
    assert [2, 3][1..] == [3];
    assert [3][1..] == [];
  }

  /** Selections from the three-book catalog. */
  lemma SelectionsOfThreeBooks()
    ensures Select(ThreeBooks(), [2]) == [Book(2, "B")]
    ensures Select(ThreeBooks(), [3]) == [Book(3, "C")]
    ensures Select(ThreeBooks(), [3, 2]) == [Book(2, "B"), Book(3, "C")]
  {
    var catalog := ThreeBooks();
    assert catalog[1..] == [Book(2, "B"), Book(3, "C")];
    assert catalog[1..][1..] == [Book(3, "C")];
    assert [Book(3, "C")][1..] == [];
  }

  /** Only book 3 is left for the CB stage once books 1 and 2 are excluded. */
  lemma CbCandidatesThree()
    ensures CbCandidates([1, 2, 3], {1, 2}) == [3]
  {
    assert [1, 2, 3][1..] == [2, 3];
    assert [2, 3][1..] == [3];
    assert [3][1..] == [];
  }

  /** Of two candidates, the single CF pick is the better-estimated one. */
  lemma BestOfTwo(model: CfModel, user: UserId, candidates: seq<BookId>, a: BookId, b: BookId)
    requires candidates == [a, b]
    requires model.estimate(user, a) > model.estimate(user, b)
    ensures CfStage(model, user, candidates, 1) == [a]
  {
    var cf := CfStage(model, user, candidates, 1);
    assert |cf| == 1;
    assert cf[0] == a by {
      assert cf[0] in candidates;
      assert b in candidates;
    }
  }

  /** Two distinct picks from {a, b}, sorted by a key that puts `a` above
      `b`, are `a` then `b`. */
  lemma OrderedPair(cf: seq<BookId>, key: BookId -> real, a: BookId, b: BookId)
    requires key(a) > key(b)
    requires |cf| == 2 && Distinct(cf) && SortedDesc(cf, key)
    requires forall x :: x in cf ==> x == a || x == b
    ensures cf == [a, b]
  {
    assert cf[0] in cf && cf[1] in cf;
  }

  /** Two CF picks from two candidates come best first. */
  lemma RankTwo(model: CfModel, user: UserId, candidates: seq<BookId>, a: BookId, b: BookId)
    requires |candidates| == 2 && Distinct(candidates)
    requires forall x :: x in candidates ==> x == a || x == b
    requires model.estimate(user, a) > model.estimate(user, b)
    ensures CfStage(model, user, candidates, 2) == [a, b]
  {
    OrderedPair(CfStage(model, user, candidates, 2), EstimateKey(model, user), a, b);
  }

  /** The hybrid model's single CF pick is book 2 (estimate 4.5 beats 3.0). */
  lemma HybridCfPick(model: CfModel, candidates: seq<BookId>)
    requires model == HybridModel() && candidates == [2, 3]
    ensures CfStage(model, User, candidates, 1) == [2]
  {
    BestOfTwo(model, User, candidates, 2, 3);
  }

  /** Book 2 as the only seed leaves book 3 as the one CB pick. */
  lemma HybridCbPick(index: ContentIndex, excluded: set<BookId>, seeds: seq<BookId>)
    requires index == HybridIndex() && excluded == {1, 2} && seeds == [2]
    ensures CbStage(index, excluded, seeds, 1) == [3]
  {
    CbCandidatesThree();
    var cb := CbStage(index, excluded, seeds, 1);
    assert |cb| == 1;
    assert cb[0] in cb;
  }

  /** The rated set of the example is {1}. */
  lemma RatedOnlyOne()
    ensures RatedIds(RatedOne(), User) == {1}
  {
    assert RatedOne()[0] in RatedOne();
  }

  /** What the hybrid run's record shows: its rankings and its titles. */
  lemma HybridRecordShows(r: Recommendation)
    requires r == Recommendation([2], [3], [Book(2, "B")], [Book(3, "C")])
    ensures r.cfIds == [2] && r.cbIds == [3]
    ensures r.Output() == ["B", "C"]
  {
    assert r.cfRows + r.cbRows == [Book(2, "B"), Book(3, "C")];
  }

  /** What the reversed run's record shows: the CF ranking, and its titles in
      catalog order. */
  lemma ReversedRecordShows(r: Recommendation)
    requires r == Recommendation([3, 2], [], [Book(2, "B"), Book(3, "C")], [])
    ensures r.cfIds == [3, 2] && r.cbIds == []
    ensures r.Output() == ["B", "C"]
  {
    assert r.cfRows + r.cbRows == [Book(2, "B"), Book(3, "C")];
  }

  /** A cascade whose CF picks all have corpus rows, given its two stages. */
  lemma CascadeOfStages(
    catalog: seq<Book>, ratings: seq<Rating>, index: ContentIndex, model: CfModel,
    user: UserId, order: seq<BookId>, nCf: int, nCb: int, cf: seq<BookId>, cb: seq<BookId>)
    requires Enumerates(order, UnratedIds(catalog, ratings, user))
    requires CfStage(model, user, Candidates(order, index, model), nCf) == cf
    requires |cf| > 0 && Seeds(cf, index) == cf
    requires CbStage(index, RatedIds(ratings, user) + Elems(cf), cf, nCb) == cb
    ensures HybridCascade(catalog, ratings, index, model, user, order, nCf, nCb)
            == Recommendation(cf, cb, Select(catalog, cf), Select(catalog, cb))
  {
  }

  /** The CF stage of the hybrid run picks book 2. */
  lemma HybridCfStage(index: ContentIndex, model: CfModel)
    requires index == HybridIndex() && model == HybridModel()
    ensures CfStage(model, User, Candidates([2, 3], index, model), 1) == [2]
  {
    CandidatesTwoThree(model);
    HybridCfPick(model, [2, 3]);
  }

  /** The CB stage of the hybrid run, seeded with book 2, picks book 3. */
  lemma HybridCbStage(ratings: seq<Rating>, index: ContentIndex)
    requires ratings == RatedOne() && index == HybridIndex()
    ensures CbStage(index, RatedIds(ratings, User) + Elems([2]), [2], 1) == [3]
  {
    RatedOnlyOne();
    assert {1} + Elems([2]) == {1, 2};
    HybridCbPick(index, {1, 2}, [2]);
  }

  /** The whole hybrid run: CF picks book 2, CB picks book 3. */
  lemma HybridRecord(catalog: seq<Book>, ratings: seq<Rating>, index: ContentIndex, model: CfModel)
    requires catalog == ThreeBooks() && ratings == RatedOne()
    requires index == HybridIndex() && model == HybridModel()
    ensures HybridCascade(catalog, ratings, index, model, User, [2, 3], 1, 1)
            == Recommendation([2], [3], [Book(2, "B")], [Book(3, "C")])
  {
    UnratedTwoThree();
    HybridCfStage(index, model);
    assert [2][0] in index.corpus;
    HybridCbStage(ratings, index);
    CascadeOfStages(catalog, ratings, index, model, User, [2, 3], 1, 1, [2], [3]);
    SelectionsOfThreeBooks();
  }

  /** With no CF pick asked for there is no seed, and the cascade returns the
      empty CF block alone. */
  lemma NoCfPicksExample(catalog: seq<Book>, ratings: seq<Rating>, index: ContentIndex, model: CfModel)
    requires catalog == ThreeBooks() && ratings == RatedOne()
    requires index == HybridIndex() && model == HybridModel()
    ensures var r := HybridCascade(catalog, ratings, index, model, User, [2, 3], 0, 1);
            && r.cfIds == [] && r.cbIds == [] && r.Output() == []
  {
    UnratedTwoThree();
    SelectNothing(catalog);
  }

  /** A CF model that ranks book 3 above book 2. */
  function ReversedModel(): CfModel {
    CfModel({2, 3}, (u: UserId, b: BookId) => if b == 3 then 5.0 else if b == 2 then 4.0 else 0.0)
  }

  /** The reversed model's two CF picks, best first. */
  lemma ReversedCfPicks(model: CfModel, candidates: seq<BookId>)
    requires model == ReversedModel() && candidates == [2, 3]
    ensures CfStage(model, User, candidates, 2) == [3, 2]
  {
    assert Distinct(candidates);
    RankTwo(model, User, candidates, 3, 2);
  }

  /** The CF stage of the reversed run picks book 3, then book 2. */
  lemma ReversedCfStage(index: ContentIndex, model: CfModel)
    requires index == HybridIndex() && model == ReversedModel()
    ensures CfStage(model, User, Candidates([2, 3], index, model), 2) == [3, 2]
  {
    CandidatesTwoThree(model);
    ReversedCfPicks(model, [2, 3]);
  }

  /** The whole reversed run: CF picks books 3 then 2, and no CB pick is asked
      for. */
  lemma ReversedRecord(catalog: seq<Book>, ratings: seq<Rating>, index: ContentIndex, model: CfModel)
    requires catalog == ThreeBooks() && ratings == RatedOne()
    requires index == HybridIndex() && model == ReversedModel()
    ensures HybridCascade(catalog, ratings, index, model, User, [2, 3], 2, 0)
            == Recommendation([3, 2], [], [Book(2, "B"), Book(3, "C")], [])
  {
    UnratedTwoThree();
    ReversedCfStage(index, model);
    assert [3, 2][0] in index.corpus && [3, 2][1] in index.corpus;
    assert |CbStage(index, RatedIds(ratings, User) + Elems([3, 2]), [3, 2], 0)| == 0;
    CascadeOfStages(catalog, ratings, index, model, User, [2, 3], 2, 0, [3, 2], []);
    SelectionsOfThreeBooks();
    SelectNothing(catalog);
  }

  /** The reversed run's record (see `ReversedRecord`): the returned titles
      follow the catalog, ["B", "C"], so the top-ranked book's title "C" comes
      second, while the rank-ordered titles are ["C", "B"]. */
  lemma CatalogOrderHidesRank(catalog: seq<Book>, r: Recommendation)
    requires catalog == ThreeBooks()
    requires r == Recommendation([3, 2], [], [Book(2, "B"), Book(3, "C")], [])
    ensures r.Output() == ["B", "C"]
    ensures RankedOutput(catalog, r) == ["C", "B"]
    ensures r.Output() != RankedOutput(catalog, r)
  {
    ReversedRecordShows(r);
    RankedTitlesOfReversed(catalog, r);
    assert r.Output()[0] != RankedOutput(catalog, r)[0];
  }

  /** The three-book catalog has unique ids. */
  lemma ThreeBooksUnique(catalog: seq<Book>)
    requires catalog == ThreeBooks()
    ensures UniqueIds(catalog)
    ensures catalog[1] == Book(2, "B") && catalog[2] == Book(3, "C")
  {
    assert IdsOf(catalog) == [1, 2, 3];
  }

  /** The rank-ordered titles of two CF picks and no CB pick, on a catalog
      with unique ids. */
  lemma RankedTitlesOfTwo(catalog: seq<Book>, r: Recommendation, x: Book, y: Book)
    requires UniqueIds(catalog) && x in catalog && y in catalog
    requires r.cfIds == [x.id, y.id] && r.cbIds == []
    ensures RankedOutput(catalog, r) == [x.title, y.title]
  {
    RankedOutputPositions(catalog, r);
    TitleOfUnique(catalog, x);
    TitleOfUnique(catalog, y);
  }

  /** The rank-ordered titles of the reversed picks. */
  lemma RankedTitlesOfReversed(catalog: seq<Book>, r: Recommendation)
    requires catalog == ThreeBooks()
    requires r.cfIds == [3, 2] && r.cbIds == []
    ensures RankedOutput(catalog, r) == ["C", "B"]
  {
    ThreeBooksUnique(catalog);
    RankedTitlesOfTwo(catalog, r, catalog[2], catalog[1]);
  }
}
