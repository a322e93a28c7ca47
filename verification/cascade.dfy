/**
 The cascaded hybrid ranking of `top_n_hibrida_cascata`: a collaborative-filtering
 (CF) stage picks the best-estimated unrated books, and a content-based (CB)
 stage fills in with the corpus books most similar to those picks.

 The CF model's rating estimate and the corpus' cosine similarity are taken as
 given score functions; what is modelled is the set bookkeeping, the
 filtering, the stable top-k selections and the concatenation of the two
 title blocks.
 */
module Cascade {
  import opened Seqs
  import opened StableTopK
  import opened Catalog

  /** The trained CF model as the cascade uses it: the raw item ids its
      trainset knows, and its rating estimate for a (user, book) pair. */
  datatype CfModel = CfModel(known: set<BookId>, estimate: (UserId, BookId) -> real)

  /** The content index: the books of the content corpus in row order, and the
      cosine similarity between the tag vectors of two of them. */
  datatype ContentIndex = ContentIndex(corpus: seq<BookId>, similarity: (BookId, BookId) -> real)

  /** What one cascade run computes. `Output()` is the list of titles the
      source returns; the id lists are the rankings it is built from. */
  datatype Recommendation = Recommendation(
    cfIds: seq<BookId>,
    cbIds: seq<BookId>,
    cfRows: seq<Book>,
    cbRows: seq<Book>)
  {
    /** The CF title block followed by the CB title block. */
    function Output(): (titles: seq<Title>)
      ensures titles == Titles(cfRows) + Titles(cbRows)
      ensures |titles| == |cfRows| + |cbRows|
      ensures forall i :: 0 <= i < |cfRows| ==> titles[i] == cfRows[i].title
      ensures forall i :: 0 <= i < |cbRows| ==> titles[|cfRows| + i] == cbRows[i].title
    {
      TitlesConcat(cfRows, cbRows);
      Titles(cfRows + cbRows)
    }
  }

  /** `order` lists every element of `s` exactly once: one iteration order of
      the Python set `s`. */
  predicate Enumerates(order: seq<BookId>, s: set<BookId>) {
    Distinct(order) && Elems(order) == s
  }

  /** The CF sort key for `user`: the model's estimate. */
  function EstimateKey(model: CfModel, user: UserId): BookId -> real {
    b => model.estimate(user, b)
  }

  /** The books of `order` that have a corpus row and that the CF model knows,
      in `order`'s order: the test set handed to the CF model. */
  function Candidates(order: seq<BookId>, index: ContentIndex, model: CfModel): (c: seq<BookId>)
    ensures forall b :: b in c <==> b in order && b in index.corpus && b in model.known
    ensures Distinct(order) ==> Distinct(c)
    ensures |c| <= |order|
  {
    if |order| == 0 then []
    else
      var rest := Candidates(order[1..], index, model);
      assert order == [order[0]] + order[1..];
      assert Distinct(order) ==> order[0] !in order[1..];
      assert Distinct(order) ==> Distinct(order[1..]);
      if order[0] in index.corpus && order[0] in model.known then [order[0]] + rest else rest
  }

  /** CF stage: the `nCf` candidates with the highest estimate, by stable
      descending sort (equal estimates keep candidate order). */
  function CfStage(model: CfModel, user: UserId, candidates: seq<BookId>, nCf: int): (cf: seq<BookId>)
    ensures forall b :: b in cf ==> b in candidates
    ensures 0 <= nCf ==> |cf| == Min(nCf, |candidates|)
    ensures SortedDesc(cf, EstimateKey(model, user))
    ensures forall b, i :: b in candidates && b !in cf && 0 <= i < |cf| ==>
              model.estimate(user, b) <= model.estimate(user, cf[i])
    ensures Distinct(candidates) ==> Distinct(cf)
  {
    TopK(candidates, EstimateKey(model, user), nCf)
  }

  /** The CF picks that have a corpus row, in CF rank order: the CB seeds. */
  function Seeds(cf: seq<BookId>, index: ContentIndex): (seeds: seq<BookId>)
    ensures forall b :: b in seeds <==> b in cf && b in index.corpus
    ensures (forall i :: 0 <= i < |cf| ==> cf[i] in index.corpus) ==> seeds == cf
  {
    if |cf| == 0 then []
    else
      assert cf == [cf[0]] + cf[1..];
      var rest := Seeds(cf[1..], index);
      assert forall i :: 0 <= i < |cf| - 1 ==> cf[1..][i] == cf[i + 1];
      if cf[0] in index.corpus then [cf[0]] + rest else rest
  }

  /** The CB score of `b`: its greatest similarity to any seed. */
  function MaxSimilarity(index: ContentIndex, b: BookId, seeds: seq<BookId>): (m: real)
    requires |seeds| > 0
    ensures forall i :: 0 <= i < |seeds| ==> index.similarity(b, seeds[i]) <= m
    ensures exists i :: 0 <= i < |seeds| && index.similarity(b, seeds[i]) == m
    ensures |seeds| == 1 ==> m == index.similarity(b, seeds[0])
  {
    if |seeds| == 1 then index.similarity(b, seeds[0])
    else
      var init := seeds[..|seeds| - 1];
      var m := MaxSimilarity(index, b, init);
      var s := index.similarity(b, seeds[|seeds| - 1]);
      assert forall i :: 0 <= i < |init| ==> seeds[i] == init[i];
      if s > m then s else m
  }

  /** The CB score depends on the seeds only as a set: neither their order
      nor repeats change it. */
  lemma MaxSimilaritySeedSet(index: ContentIndex, b: BookId, seeds: seq<BookId>, seeds': seq<BookId>)
    requires |seeds| > 0 && |seeds'| > 0
    requires Elems(seeds) == Elems(seeds')
    ensures MaxSimilarity(index, b, seeds) == MaxSimilarity(index, b, seeds')
  {
    var m := MaxSimilarity(index, b, seeds);
    var m' := MaxSimilarity(index, b, seeds');
    var i :| 0 <= i < |seeds| && index.similarity(b, seeds[i]) == m;
    var i' :| 0 <= i' < |seeds'| && index.similarity(b, seeds'[i']) == m';
    assert seeds[i] in Elems(seeds');
    var j' :| 0 <= j' < |seeds'| && seeds'[j'] == seeds[i];
    assert seeds'[i'] in Elems(seeds);
    var j :| 0 <= j < |seeds| && seeds[j] == seeds'[i'];
  }

  /** The CB sort key for a non-empty seed list. */
  function SimilarityKey(index: ContentIndex, seeds: seq<BookId>): BookId -> real
    requires |seeds| > 0
  {
    b => MaxSimilarity(index, b, seeds)
  }

  /** The corpus books, in row order, that are not excluded: the CB scoring
      candidates (the keys of `cb_scores`, in insertion order). */
  function CbCandidates(corpus: seq<BookId>, excluded: set<BookId>): (c: seq<BookId>)
    ensures forall b :: b in c <==> b in corpus && b !in excluded
    ensures Distinct(corpus) ==> Distinct(c)
  {
    if |corpus| == 0 then []
    else
      var rest := CbCandidates(corpus[1..], excluded);
      assert corpus == [corpus[0]] + corpus[1..];
      assert Distinct(corpus) ==> corpus[0] !in corpus[1..];
      assert Distinct(corpus) ==> Distinct(corpus[1..]);
      if corpus[0] !in excluded then [corpus[0]] + rest else rest
  }

  /** The CF filter keeps iteration order: filtering a concatenation filters
      each part in turn. */
  lemma {:induction false} CandidatesConcat(a: seq<BookId>, b: seq<BookId>, index: ContentIndex, model: CfModel)
    ensures Candidates(a + b, index, model) == Candidates(a, index, model) + Candidates(b, index, model)
  {
    if |a| == 0 {
      assert a + b == b;
    } else {
      assert (a + b)[0] == a[0];
      assert (a + b)[1..] == a[1..] + b;
      CandidatesConcat(a[1..], b, index, model);
      var head := if a[0] in index.corpus && a[0] in model.known then [a[0]] else [];
      assert Candidates(a, index, model) == head + Candidates(a[1..], index, model);
      assert Candidates(a + b, index, model) == head + Candidates(a[1..] + b, index, model);
      AppendAssoc(head, Candidates(a[1..], index, model), Candidates(b, index, model));
    }
  }

  /** The CB filter keeps corpus row order: filtering a concatenation filters
      each part in turn. */
  lemma {:induction false} CbCandidatesConcat(a: seq<BookId>, b: seq<BookId>, excluded: set<BookId>)
    ensures CbCandidates(a + b, excluded) == CbCandidates(a, excluded) + CbCandidates(b, excluded)
  {
    if |a| == 0 {
      assert a + b == b;
    } else {
      assert (a + b)[0] == a[0];
      assert (a + b)[1..] == a[1..] + b;
      CbCandidatesConcat(a[1..], b, excluded);
      var head := if a[0] !in excluded then [a[0]] else [];
      assert CbCandidates(a, excluded) == head + CbCandidates(a[1..], excluded);
      assert CbCandidates(a + b, excluded) == head + CbCandidates(a[1..] + b, excluded);
      AppendAssoc(head, CbCandidates(a[1..], excluded), CbCandidates(b, excluded));
    }
  }

  /** Among the CF candidates, those with key `k` are the books of `order`
      with key `k` that pass the filter, in `order`'s order. */
  lemma {:induction false} CandidatesTied(order: seq<BookId>, index: ContentIndex, model: CfModel, key: BookId -> real, k: real)
    ensures Tied(Candidates(order, index, model), key, k) == Candidates(Tied(order, key, k), index, model)
  {
    if |order| > 0 {
      var x := order[0];
      var rest := order[1..];
      assert order == [x] + rest;
      var kept := if x in index.corpus && x in model.known then [x] else [];
      var tied := if key(x) == k then [x] else [];
      assert Candidates(order, index, model) == kept + Candidates(rest, index, model);
      TiedConcat(kept, Candidates(rest, index, model), key, k);
      CandidatesTied(rest, index, model, key, k);
      TiedCons(x, rest, key, k);
      CandidatesConcat(tied, Tied(rest, key, k), index, model);
      assert [x][1..] == [];
      assert Tied(kept, key, k) == Candidates(tied, index, model);
    }
  }

  /** Among the CB candidates, those with key `k` are the corpus books with
      key `k` that are not excluded, in corpus row order. */
  lemma {:induction false} CbCandidatesTied(corpus: seq<BookId>, excluded: set<BookId>, key: BookId -> real, k: real)
    ensures Tied(CbCandidates(corpus, excluded), key, k) == CbCandidates(Tied(corpus, key, k), excluded)
  {
    if |corpus| > 0 {
      var x := corpus[0];
      var rest := corpus[1..];
      assert corpus == [x] + rest;
      var kept := if x !in excluded then [x] else [];
      var tied := if key(x) == k then [x] else [];
      assert CbCandidates(corpus, excluded) == kept + CbCandidates(rest, excluded);
      TiedConcat(kept, CbCandidates(rest, excluded), key, k);
      CbCandidatesTied(rest, excluded, key, k);
      TiedCons(x, rest, key, k);
      CbCandidatesConcat(tied, Tied(rest, key, k), excluded);
      assert [x][1..] == [];
      assert Tied(kept, key, k) == CbCandidates(tied, excluded);
    }
  }

  /** CB stage: the `nCb` non-excluded corpus books with the highest CB score,
      by stable descending sort (equal scores keep corpus row order). */
  function CbStage(index: ContentIndex, excluded: set<BookId>, seeds: seq<BookId>, nCb: int): (cb: seq<BookId>)
    requires |seeds| > 0
    ensures forall b :: b in cb ==> b in index.corpus && b !in excluded
    ensures 0 <= nCb ==> |cb| == Min(nCb, |CbCandidates(index.corpus, excluded)|)
    ensures SortedDesc(cb, SimilarityKey(index, seeds))
    ensures forall b, i :: b in index.corpus && b !in excluded && b !in cb && 0 <= i < |cb| ==>
              MaxSimilarity(index, b, seeds) <= MaxSimilarity(index, cb[i], seeds)
    ensures Distinct(index.corpus) ==> Distinct(cb)
  {
    var candidates := CbCandidates(index.corpus, excluded);
    var key := SimilarityKey(index, seeds);
    var cb := TopK(candidates, key, nCb);
    assert forall b :: key(b) == MaxSimilarity(index, b, seeds);
    cb
  }

  /** The cascade for `user`. `order` is the iteration order of the unrated
      set, which Python leaves to the set implementation. */
  function HybridCascade(
    catalog: seq<Book>, ratings: seq<Rating>, index: ContentIndex, model: CfModel,
    user: UserId, order: seq<BookId>, nCf: int, nCb: int): (r: Recommendation)
    requires Enumerates(order, UnratedIds(catalog, ratings, user))
    ensures forall b :: b in r.cfIds ==>
              b in UnratedIds(catalog, ratings, user) && b in index.corpus && b in model.known
    ensures 0 <= nCf ==> |r.cfIds| <= nCf
    ensures SortedDesc(r.cfIds, EstimateKey(model, user))
    ensures forall b :: b in r.cbIds ==>
              b in index.corpus && b !in RatedIds(ratings, user) && b !in r.cfIds
    ensures 0 <= nCb ==> |r.cbIds| <= nCb
    ensures r.cfIds == [] ==> r.cbIds == []
    ensures r.cfRows == Select(catalog, r.cfIds) && r.cbRows == Select(catalog, r.cbIds)
  {
    var rated := RatedIds(ratings, user);
    var candidates := Candidates(order, index, model);
    var cf := CfStage(model, user, candidates, nCf);
    var excluded := rated + Elems(cf);
    var seeds := Seeds(cf, index);
    if |seeds| == 0 then
      SelectNothing(catalog);
      Recommendation(cf, [], Select(catalog, cf), [])
    else
      var cb := CbStage(index, excluded, seeds, nCb);
      Recommendation(cf, cb, Select(catalog, cf), Select(catalog, cb))
  }

  /** The titles in rank order: the CF picks' titles in CF rank order, then
      the CB picks' titles in CB rank order. This is the order the cascade is
      meant to return; `Recommendation.Output` is the order it does return. */
  function RankedOutput(catalog: seq<Book>, r: Recommendation): seq<Title> {
    Titles(RankedRows(catalog, r.cfIds) + RankedRows(catalog, r.cbIds))
  }

  /** With unique catalog ids and every pick in the catalog, the rank-ordered
      titles give each pick's title at its rank: the CF picks first, then the
      CB picks. */
  lemma RankedOutputPositions(catalog: seq<Book>, r: Recommendation)
    requires UniqueIds(catalog)
    requires forall i :: 0 <= i < |r.cfIds| ==> r.cfIds[i] in CatalogIds(catalog)
    requires forall i :: 0 <= i < |r.cbIds| ==> r.cbIds[i] in CatalogIds(catalog)
    ensures |RankedOutput(catalog, r)| == |r.cfIds| + |r.cbIds|
    ensures forall i :: 0 <= i < |r.cfIds| ==> RankedOutput(catalog, r)[i] == TitleOf(catalog, r.cfIds[i])
    ensures forall i :: 0 <= i < |r.cbIds| ==>
              RankedOutput(catalog, r)[|r.cfIds| + i] == TitleOf(catalog, r.cbIds[i])
  {
    RankedTitlesPositions(catalog, r.cfIds, r.cbIds, RankedOutput(catalog, r));
  }
}
