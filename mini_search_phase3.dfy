/**
 * The phase-3 engine: postings are sets, idf values are cached until the
 * next addition, and the top k results are selected with a bounded
 * selection instead of a full sort.
 *
 * The floating-point weights are abstract: `idfOf(N, 1 + df)` stands for
 * `log(1 + N / (1 + df))` and `weightOf(tf, idf)` for `(1 + log(tf)) * idf`.
 */
module MiniSearchPhase3 {
  import opened Seqs
  import opened Tokenizer
  import opened TermCounts
  import opened Ranking
  import opened InvertedIndex

  class MiniSearchEngine {
    var docs: map<DocId, string>
    var postings: map<Term, set<DocId>>
    var tf: map<(Term, DocId), nat>
    var df: map<Term, nat>
    var N: nat
    var idfCache: map<Term, int>

    /** The idf of a term from the corpus size and one plus its document frequency. */
    const idfOf: (nat, nat) -> int
    /** The weight of a term in a document from its term frequency and its idf. */
    const weightOf: (nat, int) -> int

    /** The index tables held by the engine. */
    ghost function State(): Index
      reads this
    {
      Index(docs, postings, tf, df, N)
    }

    /** Every cached idf is the idf of the current tables. */
    ghost predicate CacheValid()
      reads this
    {
      forall t :: t in idfCache ==> idfCache[t] == idfOf(N, IdfDenominator(DfOf(State(), t)))
    }

    ghost predicate Valid()
      reads this
    {
      WellFormed(State()) && CacheValid()
    }

    constructor(idfOf: (nat, nat) -> int, weightOf: (nat, int) -> int)
      ensures Valid()
      ensures State() == Empty && idfCache == map[]
      ensures this.idfOf == idfOf && this.weightOf == weightOf
    {
      docs := map[];
      postings := map[];
      tf := map[];
      df := map[];
      N := 0;
      idfCache := map[];
      this.idfOf := idfOf;
      this.weightOf := weightOf;
    }

    /**
     * `add_doc`: store the text, update N, record each distinct term of
     * the text in order of first occurrence, then empty the idf cache.
     * An id that is already indexed is stored again (see `AddNewDoc`).
     */
    method AddDoc(docId: DocId, text: string)
      requires Valid()
      modifies this`docs, this`postings, this`tf, this`df, this`N, this`idfCache
      ensures Valid()
      ensures State() == InvertedIndex.AddDoc(old(State()), docId, text)
      ensures idfCache == map[]
    {
      docs := docs[docId := text];
      N := |docs|;
      var tokens := Tokenize(text);
      var terms := Distinct(tokens);
      ghost var start := State();
      assert start == old(State()).(docs := old(docs)[docId := text], n := |old(docs)[docId := text]|);
      RecordNone(start, docId, tokens);
      assert Elems(terms[..0]) == {};
      for i := 0 to |terms|
        invariant State() == Record(start, docId, tokens, Elems(terms[..i]))
      {
        RecordTerm(start, docId, tokens, terms, i);
        CountTerm(terms[i], docId, Count(tokens, terms[i]));
      }
      assert terms[..|terms|] == terms;
      assert State() == InvertedIndex.AddDoc(old(State()), docId, text);
      idfCache := map[];
      AddDocWellFormed(old(State()), docId, text);
    }

    /** The body of the `add_doc` loop: record `c` occurrences of `term` in document `docId`. */
    method CountTerm(term: Term, docId: DocId, c: nat)
      modifies this`postings, this`tf, this`df
      ensures State() == RecordOne(old(State()), docId, term, c)
    {
      tf := tf[(term, docId) := c];
      df := df[term := (if term in df then df[term] else 0) + 1];
      postings := postings[term := (if term in postings then postings[term] else {}) + {docId}];
    }

    /**
     * `add_doc` with the duplicate check the index needs: an id that is
     * already indexed is refused and nothing changes.
     */
    method AddNewDoc(docId: DocId, text: string) returns (r: Result<()>)
      requires Valid() && Faithful(State())
      modifies this`docs, this`postings, this`tf, this`df, this`N, this`idfCache
      ensures Valid() && Faithful(State())
      ensures r.Err? <==> docId in old(docs)
      ensures r.Err? ==> r.error == DuplicateId(docId) && State() == old(State()) && idfCache == old(idfCache)
      ensures r.Ok? ==> AddNew(old(State()), docId, text) == Ok(State())
      ensures r.Ok? ==> idfCache == map[]
    {
      if docId in docs {
        return Err(DuplicateId(docId));
      }
      AddDoc(docId, text);
      AddNewKeepsInvariants(old(State()), docId, text);
      return Ok(());
    }

    /** `_idf`: the idf of a term, computed once and cached. */
    method Idf(term: Term) returns (v: int)
      requires Valid()
      modifies this`idfCache
      ensures Valid()
      ensures v == idfOf(N, IdfDenominator(DfOf(State(), term)))
      ensures idfCache == old(idfCache)[term := v]
    {
      if term !in idfCache {
        idfCache := idfCache[term := idfOf(N, 1 + (if term in df then df[term] else 0))];
      }
      v := idfCache[term];
    }

    /** `_tfidf`: the weight of an indexed term in a document. */
    method TfIdf(term: Term, docId: DocId) returns (v: int)
      requires Valid() && (term, docId) in tf
      modifies this`idfCache
      ensures Valid()
      ensures v == TermWeight(State(), term, docId, idfOf, weightOf)
      ensures idfCache == old(idfCache)[term := idfOf(N, IdfDenominator(DfOf(State(), term)))]
    {
      var c := tf[(term, docId)];
      var idf := Idf(term);
      v := weightOf(c, idf);
    }

    /** The score of one candidate: the weights of the query terms it contains, summed in query order. */
    method Score(terms: seq<Term>, docId: DocId) returns (s: int)
      requires Valid()
      modifies this`idfCache
      ensures Valid()
      ensures s == DocScore(State(), terms, docId, idfOf, weightOf)
    {
      s := 0;
      for i := 0 to |terms|
        invariant Valid()
        invariant s == DocScore(State(), terms[..i], docId, idfOf, weightOf)
      {
        assert terms[..i + 1][..i] == terms[..i];
        if (terms[i], docId) in tf {
          var w := TfIdf(terms[i], docId);
          s := s + w;
        }
      }
      assert terms[..|terms|] == terms;
    }

    /** The candidates of `search`: the union of the postings of the query terms. */
    method CollectCandidates(terms: seq<Term>) returns (candidates: set<DocId>)
      ensures candidates == Candidates(State(), terms)
    {
      candidates := {};
      for i := 0 to |terms|
        invariant candidates == Candidates(State(), terms[..i])
      {
        assert terms[..i + 1][..i] == terms[..i];
        candidates := candidates + (if terms[i] in postings then postings[terms[i]] else {});
      }
      assert terms[..|terms|] == terms;
    }

    /**
     * The `(score, id)` list of `search`, one entry per candidate, in the
     * (unspecified) order in which the candidate set is visited.
     */
    method ScoreCandidates(terms: seq<Term>, candidates: set<DocId>) returns (scores: seq<Scored>)
      requires Valid()
      modifies this`idfCache
      ensures Valid() && State() == old(State())
      ensures NoDuplicates(scores) && |scores| == |candidates|
      ensures Elems(scores) == set d | d in candidates :: Scored(DocScore(State(), terms, d, idfOf, weightOf), d)
    {
      scores := [];
      var remaining := candidates;
      ghost var done: set<DocId> := {};
      while remaining != {}
        invariant Valid() && State() == old(State())
        invariant remaining + done == candidates && remaining !! done
        invariant |scores| == |done|
        invariant NoDuplicates(scores)
        invariant forall i :: 0 <= i < |scores| ==> scores[i].doc in done
        invariant Elems(scores) == set d | d in done :: Scored(DocScore(State(), terms, d, idfOf, weightOf), d)
        decreases remaining
      {
        if forall d :: d !in remaining {
          assert false;
        }
        var d :| d in remaining;
        var s := Score(terms, d);
        assert Elems(scores + [Scored(s, d)]) == Elems(scores) + {Scored(s, d)};
        scores := scores + [Scored(s, d)];
        remaining := remaining - {d};
        done := done + {d};
      }
    }

    /**
     * `search`: the k best (score, id) pairs, best first, over the documents
     * containing at least one query term; no result for a query without
     * terms or for k <= 0.
     */
    method Search(query: string, k: int) returns (result: seq<Scored>)
      requires Valid()
      modifies this`idfCache
      ensures Valid() && State() == old(State())
      ensures |result| == if Tokenize(query) == [] || k <= 0 then 0
                          else Min(k, |Candidates(State(), Tokenize(query))|)
      ensures forall i :: 0 <= i < |result| ==> result[i].doc in Candidates(State(), Tokenize(query))
      ensures Tokenize(query) != [] ==>
                IsTop(result, ScoredCandidates(State(), Tokenize(query), idfOf, weightOf))
    {
      var terms := Tokenize(query);
      if terms == [] {
        return [];
      }
      var candidates := CollectCandidates(terms);
      var scores := ScoreCandidates(terms, candidates);
      result := NLargest(k, scores);
      NLargestIsTop(k, scores);
    }
  }

  /** One step of the `add_doc` loop: record the `i`-th distinct term. */
  lemma RecordTerm(start: Index, id: DocId, tokens: seq<Term>, terms: seq<Term>, i: nat)
    requires NoDuplicates(terms) && i < |terms|
    ensures Record(start, id, tokens, Elems(terms[..i + 1])) ==
            RecordOne(Record(start, id, tokens, Elems(terms[..i])), id, terms[i], Count(tokens, terms[i]))
  {
    ElemsSnoc(terms, i);
    assert terms[i] !in Elems(terms[..i]);
    RecordStep(start, id, tokens, Elems(terms[..i]), terms[i]);
  }
}
