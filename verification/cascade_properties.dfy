/**
 Properties of the cascade that relate its stages to one another and to the
 tables it reads: eligibility of the CF candidates, the CF and CB rankings as
 stable top-k selections, the exclusion bookkeeping, the CF-only path, and the
 shape of the returned title list.
 */
module CascadeProperties {
  import opened Seqs
  import opened StableTopK
  import opened Catalog
  import opened Cascade
  import opened PairLookup

  /** The CF candidates are exactly the unrated books that have a corpus row
      and are known to the CF model, each listed once. */
  lemma CandidatesAreEligible(
    catalog: seq<Book>, ratings: seq<Rating>, index: ContentIndex, model: CfModel,
    user: UserId, order: seq<BookId>)
    requires Enumerates(order, UnratedIds(catalog, ratings, user))
    ensures Elems(Candidates(order, index, model))
            == UnratedIds(catalog, ratings, user) * Elems(index.corpus) * model.known
    ensures Distinct(Candidates(order, index, model))
  {
    var c := Candidates(order, index, model);
    forall b
      ensures b in Elems(c) <==> b in UnratedIds(catalog, ratings, user) * Elems(index.corpus) * model.known
    {
      assert b in order <==> b in Elems(order);
      assert b in index.corpus <==> b in Elems(index.corpus);
    }
  }

  /** The CF picks are the best-estimated candidates: exactly `nCf` of them
      when there are enough, and no candidate left out has a strictly higher
      estimate than one kept. */
  lemma CfPicksAreTopEstimates(
    catalog: seq<Book>, ratings: seq<Rating>, index: ContentIndex, model: CfModel,
    user: UserId, order: seq<BookId>, nCf: int, nCb: int)
    requires Enumerates(order, UnratedIds(catalog, ratings, user))
    ensures var r := HybridCascade(catalog, ratings, index, model, user, order, nCf, nCb);
            && r.cfIds == CfStage(model, user, Candidates(order, index, model), nCf)
            && (0 <= nCf ==> |r.cfIds| == Min(nCf, |Candidates(order, index, model)|))
            && Distinct(r.cfIds)
            && forall b, i :: b in Candidates(order, index, model) && b !in r.cfIds && 0 <= i < |r.cfIds| ==>
                 model.estimate(user, b) <= model.estimate(user, r.cfIds[i])
  {
    CandidatesAreEligible(catalog, ratings, index, model, user, order);
  }

  /** Equal estimates keep the iteration order of the unrated set: the CF
      picks with estimate `k` are the first eligible books of `order` with
      estimate `k`, in `order`'s order. */
  lemma CfTiesKeepIterationOrder(
    catalog: seq<Book>, ratings: seq<Rating>, index: ContentIndex, model: CfModel,
    user: UserId, order: seq<BookId>, nCf: int, nCb: int, k: real)
    requires Enumerates(order, UnratedIds(catalog, ratings, user))
    ensures var r := HybridCascade(catalog, ratings, index, model, user, order, nCf, nCb);
            Tied(r.cfIds, EstimateKey(model, user), k)
            <= Tied(Candidates(order, index, model), EstimateKey(model, user), k)
    ensures var r := HybridCascade(catalog, ratings, index, model, user, order, nCf, nCb);
            Tied(r.cfIds, EstimateKey(model, user), k)
            <= Candidates(Tied(order, EstimateKey(model, user), k), index, model)
  {
    TopKTiesKeepInputOrder(Candidates(order, index, model), EstimateKey(model, user), nCf, k);
    CandidatesTied(order, index, model, EstimateKey(model, user), k);
  }

  /** Every CF pick has a corpus row, so the seeds are the CF picks: the seed
      set is empty exactly when the CF stage picked nothing. */
  lemma SeedsAreCfPicks(
    catalog: seq<Book>, ratings: seq<Rating>, index: ContentIndex, model: CfModel,
    user: UserId, order: seq<BookId>, nCf: int, nCb: int)
    requires Enumerates(order, UnratedIds(catalog, ratings, user))
    ensures var r := HybridCascade(catalog, ratings, index, model, user, order, nCf, nCb);
            Seeds(r.cfIds, index) == r.cfIds
  {
    var r := HybridCascade(catalog, ratings, index, model, user, order, nCf, nCb);
    assert forall i :: 0 <= i < |r.cfIds| ==> r.cfIds[i] in r.cfIds;
  }

  /** The CB picks, when there are seeds, are the stable top-`nCb` of the
      non-excluded corpus books by greatest similarity to a CF pick: none is
      rated or a CF pick, they come best first, and no non-excluded corpus book
      left out scores strictly higher than one kept. */
  lemma CbPicksAreTopSimilar(
    catalog: seq<Book>, ratings: seq<Rating>, index: ContentIndex, model: CfModel,
    user: UserId, order: seq<BookId>, nCf: int, nCb: int)
    requires Enumerates(order, UnratedIds(catalog, ratings, user))
    ensures var r := HybridCascade(catalog, ratings, index, model, user, order, nCf, nCb);
            var excluded := RatedIds(ratings, user) + Elems(r.cfIds);
            r.cfIds != [] ==>
              && r.cbIds == CbStage(index, excluded, r.cfIds, nCb)
              && (0 <= nCb ==> |r.cbIds| == Min(nCb, |CbCandidates(index.corpus, excluded)|))
              && SortedDesc(r.cbIds, SimilarityKey(index, r.cfIds))
              && forall b, i :: b in index.corpus && b !in excluded && b !in r.cbIds && 0 <= i < |r.cbIds| ==>
                   MaxSimilarity(index, b, r.cfIds) <= MaxSimilarity(index, r.cbIds[i], r.cfIds)
  {
    SeedsAreCfPicks(catalog, ratings, index, model, user, order, nCf, nCb);
  }

  /** Equal CB scores keep corpus row order: the CB picks with score `k` are
      the first non-excluded corpus books with score `k`, in row order. */
  lemma CbTiesKeepCorpusOrder(
    catalog: seq<Book>, ratings: seq<Rating>, index: ContentIndex, model: CfModel,
    user: UserId, order: seq<BookId>, nCf: int, nCb: int, k: real)
    requires Enumerates(order, UnratedIds(catalog, ratings, user))
    ensures var r := HybridCascade(catalog, ratings, index, model, user, order, nCf, nCb);
            var excluded := RatedIds(ratings, user) + Elems(r.cfIds);
            r.cfIds != [] ==>
              Tied(r.cbIds, SimilarityKey(index, r.cfIds), k)
              <= Tied(CbCandidates(index.corpus, excluded), SimilarityKey(index, r.cfIds), k)
    ensures var r := HybridCascade(catalog, ratings, index, model, user, order, nCf, nCb);
            var excluded := RatedIds(ratings, user) + Elems(r.cfIds);
            r.cfIds != [] ==>
              Tied(r.cbIds, SimilarityKey(index, r.cfIds), k)
              <= CbCandidates(Tied(index.corpus, SimilarityKey(index, r.cfIds), k), excluded)
  {
    var r := HybridCascade(catalog, ratings, index, model, user, order, nCf, nCb);
    if r.cfIds != [] {
      SeedsAreCfPicks(catalog, ratings, index, model, user, order, nCf, nCb);
      var excluded := RatedIds(ratings, user) + Elems(r.cfIds);
      TopKTiesKeepInputOrder(CbCandidates(index.corpus, excluded), SimilarityKey(index, r.cfIds), nCb, k);
      CbCandidatesTied(index.corpus, excluded, SimilarityKey(index, r.cfIds), k);
    }
  }

  /** With an empty seed set the cascade returns the CF titles alone; with
      `nCf = 0`, or no eligible candidate, that is the empty list. */
  lemma EmptySeedsReturnCfTitles(
    catalog: seq<Book>, ratings: seq<Rating>, index: ContentIndex, model: CfModel,
    user: UserId, order: seq<BookId>, nCf: int, nCb: int)
    requires Enumerates(order, UnratedIds(catalog, ratings, user))
    ensures var r := HybridCascade(catalog, ratings, index, model, user, order, nCf, nCb);
            && (Seeds(r.cfIds, index) == [] <==> r.cfIds == [])
            && (r.cfIds == [] ==> r.cbIds == [] && r.Output() == [])
            && (nCf == 0 || Candidates(order, index, model) == [] ==> r.Output() == [])
  {
    var r := HybridCascade(catalog, ratings, index, model, user, order, nCf, nCb);
    SeedsAreCfPicks(catalog, ratings, index, model, user, order, nCf, nCb);
    SelectNothing(catalog);
    assert r.cfRows + r.cbRows == [] ==> r.Output() == [];
  }

  /** No rated book is ever recommended, and the CF and CB blocks share no book. */
  lemma NoRatedBookAndDisjointBlocks(
    catalog: seq<Book>, ratings: seq<Rating>, index: ContentIndex, model: CfModel,
    user: UserId, order: seq<BookId>, nCf: int, nCb: int)
    requires Enumerates(order, UnratedIds(catalog, ratings, user))
    ensures var r := HybridCascade(catalog, ratings, index, model, user, order, nCf, nCb);
            && (forall row :: row in r.cfRows + r.cbRows ==> row.id !in RatedIds(ratings, user))
            && (forall row :: row in r.cfRows ==> row !in r.cbRows)
            && (forall b :: b in r.cfIds ==> b !in r.cbIds)
  {
    var r := HybridCascade(catalog, ratings, index, model, user, order, nCf, nCb);
    forall row | row in r.cfRows + r.cbRows
      ensures row.id !in RatedIds(ratings, user)
    {
      assert row in r.cfRows || row in r.cbRows;
    }
  }

  /** The returned list is the CF title block followed by the CB title block;
      with unique catalog ids it holds at most `nCf + nCb` titles, and no book
      twice. */
  lemma OutputShape(
    catalog: seq<Book>, ratings: seq<Rating>, index: ContentIndex, model: CfModel,
    user: UserId, order: seq<BookId>, nCf: int, nCb: int)
    requires Enumerates(order, UnratedIds(catalog, ratings, user))
    requires UniqueIds(catalog)
    ensures var r := HybridCascade(catalog, ratings, index, model, user, order, nCf, nCb);
            && r.Output() == Titles(r.cfRows) + Titles(r.cbRows)
            && (0 <= nCf && 0 <= nCb ==> |r.Output()| <= nCf + nCb)
            && UniqueIds(r.cfRows + r.cbRows)
  {
    var r := HybridCascade(catalog, ratings, index, model, user, order, nCf, nCb);
    TitlesConcat(r.cfRows, r.cbRows);
    SelectCount(catalog, r.cfIds);
    SelectCount(catalog, r.cbIds);
    NoRatedBookAndDisjointBlocks(catalog, ratings, index, model, user, order, nCf, nCb);
    SelectDisjointUnique(catalog, r.cfIds, r.cbIds);
  }

  /** When every corpus book is a catalog book, each corpus row and each
      catalog id unique, every pick yields exactly one title: the CF block has
      `min(nCf, #candidates)` titles and the CB block one per CB pick. */
  lemma OutputExactLength(
    catalog: seq<Book>, ratings: seq<Rating>, index: ContentIndex, model: CfModel,
    user: UserId, order: seq<BookId>, nCf: int, nCb: int)
    requires Enumerates(order, UnratedIds(catalog, ratings, user))
    requires UniqueIds(catalog) && Distinct(index.corpus)
    requires Elems(index.corpus) <= CatalogIds(catalog)
    ensures var r := HybridCascade(catalog, ratings, index, model, user, order, nCf, nCb);
            && |r.cfRows| == |r.cfIds|
            && |r.cbRows| == |r.cbIds|
            && |r.Output()| == |r.cfIds| + |r.cbIds|
  {
    var r := HybridCascade(catalog, ratings, index, model, user, order, nCf, nCb);
    CfPicksAreTopEstimates(catalog, ratings, index, model, user, order, nCf, nCb);
    assert Elems(r.cfIds) <= CatalogIds(catalog) by {
      forall b | b in Elems(r.cfIds)
        ensures b in CatalogIds(catalog)
      {
        assert b in r.cfIds;
      }
    }
    SelectCount(catalog, r.cfIds);
    if r.cfIds != [] {
      SeedsAreCfPicks(catalog, ratings, index, model, user, order, nCf, nCb);
      assert Distinct(r.cbIds);
      assert Elems(r.cbIds) <= CatalogIds(catalog) by {
        forall b | b in Elems(r.cbIds)
          ensures b in CatalogIds(catalog)
        {
          assert b in r.cbIds;
          assert b in Elems(index.corpus);
        }
      }
    }
    SelectCount(catalog, r.cbIds);
  }

  /** Python's set iteration order only matters through ties: when no two
      candidates share an estimate, any two iteration orders of the unrated
      set give the same recommendation. */
  lemma CascadeIndependentOfIterationOrder(
    catalog: seq<Book>, ratings: seq<Rating>, index: ContentIndex, model: CfModel,
    user: UserId, order: seq<BookId>, order': seq<BookId>, nCf: int, nCb: int)
    requires Enumerates(order, UnratedIds(catalog, ratings, user))
    requires Enumerates(order', UnratedIds(catalog, ratings, user))
    requires InjectiveOn(EstimateKey(model, user), Elems(Candidates(order, index, model)))
    ensures HybridCascade(catalog, ratings, index, model, user, order, nCf, nCb)
            == HybridCascade(catalog, ratings, index, model, user, order', nCf, nCb)
  {
    CandidatesAreEligible(catalog, ratings, index, model, user, order);
    CandidatesAreEligible(catalog, ratings, index, model, user, order');
    TopKOrderIndependent(Candidates(order, index, model), Candidates(order', index, model),
                         EstimateKey(model, user), nCf);
  }

  /** The rank-ordered blocks hold the same rows as the returned blocks, only
      reordered. */
  lemma RankedOutputReordersOutput(
    catalog: seq<Book>, ratings: seq<Rating>, index: ContentIndex, model: CfModel,
    user: UserId, order: seq<BookId>, nCf: int, nCb: int)
    requires Enumerates(order, UnratedIds(catalog, ratings, user))
    requires UniqueIds(catalog) && Distinct(index.corpus)
    requires Elems(index.corpus) <= CatalogIds(catalog)
    ensures var r := HybridCascade(catalog, ratings, index, model, user, order, nCf, nCb);
            && multiset(RankedRows(catalog, r.cfIds)) == multiset(r.cfRows)
            && multiset(RankedRows(catalog, r.cbIds)) == multiset(r.cbRows)
  {
    var r := HybridCascade(catalog, ratings, index, model, user, order, nCf, nCb);
    PicksInCatalog(catalog, ratings, index, model, user, order, nCf, nCb);
    RankedRowsReorderSelect(catalog, r.cfIds);
    RankedRowsReorderSelect(catalog, r.cbIds);
  }

  /** With the corpus inside the catalog, every pick of either stage is a
      catalog id and each block lists its picks once. */
  lemma PicksInCatalog(
    catalog: seq<Book>, ratings: seq<Rating>, index: ContentIndex, model: CfModel,
    user: UserId, order: seq<BookId>, nCf: int, nCb: int)
    requires Enumerates(order, UnratedIds(catalog, ratings, user))
    requires Distinct(index.corpus)
    requires Elems(index.corpus) <= CatalogIds(catalog)
    ensures var r := HybridCascade(catalog, ratings, index, model, user, order, nCf, nCb);
            && Distinct(r.cfIds) && Distinct(r.cbIds)
            && (forall i :: 0 <= i < |r.cfIds| ==> r.cfIds[i] in CatalogIds(catalog))
            && (forall i :: 0 <= i < |r.cbIds| ==> r.cbIds[i] in CatalogIds(catalog))
  {
    var r := HybridCascade(catalog, ratings, index, model, user, order, nCf, nCb);
    CfPicksAreTopEstimates(catalog, ratings, index, model, user, order, nCf, nCb);
    forall i | 0 <= i < |r.cfIds|
      ensures r.cfIds[i] in CatalogIds(catalog)
    {
      assert r.cfIds[i] in r.cfIds;
    }
    forall i | 0 <= i < |r.cbIds|
      ensures r.cbIds[i] in CatalogIds(catalog)
    {
      assert r.cbIds[i] in r.cbIds;
      assert r.cbIds[i] in Elems(index.corpus);
    }
  }

  /** Every recommended book is a catalog book the single-pair lookup finds,
      and the lookup reports it as not yet rated by the user. */
  lemma RecommendedBooksLookUnrated(
    catalog: seq<Book>, ratings: seq<Rating>, index: ContentIndex, model: CfModel,
    user: UserId, order: seq<BookId>, nCf: int, nCb: int,
    estimate: (UserId, BookId) -> real, row: Book)
    requires Enumerates(order, UnratedIds(catalog, ratings, user))
    requires var r := HybridCascade(catalog, ratings, index, model, user, order, nCf, nCb);
             row in r.cfRows + r.cbRows
    ensures LookupPair(catalog, ratings, estimate, user, row.id).Found?
    ensures LookupPair(catalog, ratings, estimate, user, row.id).report.prior.NotRated?
  {
    var r := HybridCascade(catalog, ratings, index, model, user, order, nCf, nCb);
    NoRatedBookAndDisjointBlocks(catalog, ratings, index, model, user, order, nCf, nCb);
    assert row in r.cfRows || row in r.cbRows;
    assert row in catalog;
    assert row.id in UnratedIds(catalog, ratings, user);
    PriorMatchesRatedIds(catalog, ratings, estimate, user, row.id);
  }
}
