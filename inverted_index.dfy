/**
 * The tables of the inverted index as a value, and what adding a document
 * and answering a query mean in terms of them.  Both engine versions are
 * proved against these definitions.
 *
 * The index holds the documents by id, the postings (term -> ids of the
 * documents containing it), the term frequencies ((term, id) -> number of
 * occurrences), the document frequencies (term -> count) and the corpus
 * size N.  Python's `Counter` and `defaultdict` read a missing key as 0 or
 * as an empty collection; `DfOf` and `PostingsOf` do the same.
 */
module InvertedIndex {
  import opened Seqs
  import opened Tokenizer
  import opened TermCounts
  import opened Ranking

  datatype Index = Index(
    docs: map<DocId, string>,
    postings: map<Term, set<DocId>>,
    tf: map<(Term, DocId), nat>,
    df: map<Term, nat>,
    n: nat)

  /** The tables of a freshly constructed engine. */
  const Empty: Index := Index(map[], map[], map[], map[], 0)

  function PostingsOf(ix: Index, t: Term): set<DocId>
  {
    if t in ix.postings then ix.postings[t] else {}
  }

  function DfOf(ix: Index, t: Term): nat
  {
    if t in ix.df then ix.df[t] else 0
  }

  function TermPairs(ts: set<Term>, id: DocId): set<(Term, DocId)>
  {
    set t | t in ts :: (t, id)
  }

  /**
   * The tables once the terms `ts` of document `id` (whose term list is
   * `tokens`) have been recorded: the term frequency set to the term's
   * count, the document frequency incremented, the id added to the postings.
   */
  function Record(ix: Index, id: DocId, tokens: seq<Term>, ts: set<Term>): Index
  {
    ix.(postings := AddPostings(ix.postings, id, ts),
        tf := SetCounts(ix.tf, id, tokens, ts),
        df := BumpDf(ix.df, ts))
  }

  function AddPostings(postings: map<Term, set<DocId>>, id: DocId, ts: set<Term>): map<Term, set<DocId>>
  {
    map t | t in postings.Keys + ts ::
      if t in ts then (if t in postings then postings[t] else {}) + {id} else postings[t]
  }

  function SetCounts(tf: map<(Term, DocId), nat>, id: DocId, tokens: seq<Term>, ts: set<Term>): map<(Term, DocId), nat>
  {
    map p | p in tf.Keys + TermPairs(ts, id) ::
      if p.1 == id && p.0 in ts then Count(tokens, p.0) else tf[p]
  }

  function BumpDf(df: map<Term, nat>, ts: set<Term>): map<Term, nat>
  {
    map t | t in df.Keys + ts :: if t in ts then (if t in df then df[t] else 0) + 1 else df[t]
  }

  /** Recording no term changes nothing. */
  lemma RecordNone(ix: Index, id: DocId, tokens: seq<Term>)
    ensures Record(ix, id, tokens, {}) == ix
  {
    assert TermPairs({}, id) == {};
  }

  /**
   * One pass of the `add_doc` loop: term `t` occurs `c` times in document
   * `id`, so its term frequency is set, its document frequency incremented
   * and the id added to its postings.
   */
  function RecordOne(ix: Index, id: DocId, t: Term, c: nat): Index
  {
    ix.(tf := ix.tf[(t, id) := c],
        df := ix.df[t := DfOf(ix, t) + 1],
        postings := ix.postings[t := PostingsOf(ix, t) + {id}])
  }

  /** Recording one more term `t` is one pass of the loop. */
  lemma RecordStep(ix: Index, id: DocId, tokens: seq<Term>, ts: set<Term>, t: Term)
    requires t !in ts
    ensures Record(ix, id, tokens, ts + {t}) == RecordOne(Record(ix, id, tokens, ts), id, t, Count(tokens, t))
  {
    RecordStepTf(ix, id, tokens, ts, t);
    RecordStepDf(ix, id, tokens, ts, t);
    RecordStepPostings(ix, id, tokens, ts, t);
  }

  lemma RecordStepTf(ix: Index, id: DocId, tokens: seq<Term>, ts: set<Term>, t: Term)
    requires t !in ts
    ensures Record(ix, id, tokens, ts + {t}).tf ==
            Record(ix, id, tokens, ts).tf[(t, id) := Count(tokens, t)]
  {
    SetCountsStep(ix.tf, id, tokens, ts, t);
  }

  lemma SetCountsStep(tf: map<(Term, DocId), nat>, id: DocId, tokens: seq<Term>, ts: set<Term>, t: Term)
    requires t !in ts
    ensures SetCounts(tf, id, tokens, ts + {t}) == SetCounts(tf, id, tokens, ts)[(t, id) := Count(tokens, t)]
  {
    var m := SetCounts(tf, id, tokens, ts);
    var m' := SetCounts(tf, id, tokens, ts + {t});
    var u := m[(t, id) := Count(tokens, t)];
    forall p ensures p in m' <==> p in u {
      TermPairsMember(ts, id, p);
      TermPairsMember(ts + {t}, id, p);
    }
    forall p | p in m' ensures m'[p] == u[p] {
      TermPairsMember(ts, id, p);
      TermPairsMember(ts + {t}, id, p);
    }
  }

  lemma TermPairsMember(ts: set<Term>, id: DocId, p: (Term, DocId))
    ensures p in TermPairs(ts, id) <==> p.0 in ts && p.1 == id
  {
    if p.0 in ts && p.1 == id {
      assert p == (p.0, id);
    }
  }

  lemma RecordStepDf(ix: Index, id: DocId, tokens: seq<Term>, ts: set<Term>, t: Term)
    requires t !in ts
    ensures Record(ix, id, tokens, ts + {t}).df ==
            Record(ix, id, tokens, ts).df[t := DfOf(Record(ix, id, tokens, ts), t) + 1]
  {
    var r := Record(ix, id, tokens, ts);
    assert r.df == BumpDf(ix.df, ts);
    assert Record(ix, id, tokens, ts + {t}).df == BumpDf(ix.df, ts + {t});
    BumpDfStep(ix.df, ts, t);
    assert DfOf(r, t) == if t in r.df then r.df[t] else 0;
  }

  lemma BumpDfStep(df: map<Term, nat>, ts: set<Term>, t: Term)
    requires t !in ts
    ensures var m := BumpDf(df, ts);
            BumpDf(df, ts + {t}) == m[t := (if t in m then m[t] else 0) + 1]
  {
    var m := BumpDf(df, ts);
    var m' := BumpDf(df, ts + {t});
    var u := m[t := (if t in m then m[t] else 0) + 1];
    forall v ensures v in m' <==> v in u {
    }
    forall v | v in m' ensures m'[v] == u[v] {
      if v != t {
        assert v in ts <==> v in ts + {t};
      }
    }
  }

  lemma RecordStepPostings(ix: Index, id: DocId, tokens: seq<Term>, ts: set<Term>, t: Term)
    requires t !in ts
    ensures Record(ix, id, tokens, ts + {t}).postings ==
            Record(ix, id, tokens, ts).postings[t := PostingsOf(Record(ix, id, tokens, ts), t) + {id}]
  {
    var r := Record(ix, id, tokens, ts);
    assert r.postings == AddPostings(ix.postings, id, ts);
    assert Record(ix, id, tokens, ts + {t}).postings == AddPostings(ix.postings, id, ts + {t});
    AddPostingsStep(ix.postings, id, ts, t);
  }

  lemma AddPostingsStep(postings: map<Term, set<DocId>>, id: DocId, ts: set<Term>, t: Term)
    requires t !in ts
    ensures var m := AddPostings(postings, id, ts);
            AddPostings(postings, id, ts + {t}) == m[t := (if t in m then m[t] else {}) + {id}]
  {
    var m := AddPostings(postings, id, ts);
    var m' := AddPostings(postings, id, ts + {t});
    var u := m[t := (if t in m then m[t] else {}) + {id}];
    forall v ensures v in m' <==> v in u {
    }
    forall v | v in m' ensures m'[v] == u[v] {
      if v != t {
        assert v in ts <==> v in ts + {t};
      }
    }
  }

  /**
   * `add_doc(id, text)`: store the text, set N to the number of documents,
   * then record every distinct term of the text.  The document frequency is
   * incremented whether or not `id` was already indexed, and nothing is
   * removed for the text `id` held before.
   */
  function AddDoc(ix: Index, id: DocId, text: string): (r: Index)
    ensures r.docs == ix.docs[id := text] && id in r.docs
    ensures r.n == |r.docs|
  {
    var docs := ix.docs[id := text];
    var tokens := Tokenize(text);
    Record(ix.(docs := docs, n := |docs|), id, tokens, Elems(tokens))
  }

  /**
   * What holds after any sequence of additions: N counts the documents,
   * every term frequency is positive and belongs to a stored document whose
   * id is in the term's postings, and every posting has a term frequency.
   */
  ghost predicate WellFormed(ix: Index)
  {
    && ix.n == |ix.docs|
    && (forall p :: p in ix.tf ==> ix.tf[p] >= 1 && p.1 in ix.docs && p.1 in PostingsOf(ix, p.0))
    && (forall t, d :: t in ix.postings && d in ix.postings[t] ==> (t, d) in ix.tf)
  }

  /**
   * The index describes its documents exactly: each term's document
   * frequency is the size of its postings, and the term frequencies are the
   * counts of the terms in the stored texts.
   */
  ghost predicate Faithful(ix: Index)
  {
    && (forall t :: t in ix.postings ==> DfOf(ix, t) == |ix.postings[t]|)
    && (forall t :: t in ix.df ==> t in ix.postings)
    && (forall p :: p in ix.tf ==> p.1 in ix.docs && ix.tf[p] == Count(Tokenize(ix.docs[p.1]), p.0))
    && (forall d, t :: d in ix.docs && t in Tokenize(ix.docs[d]) ==> (t, d) in ix.tf)
  }

  /** N goes up by one for a new id and stays the same for an id already stored. */
  lemma AddDocCountsDocs(ix: Index, id: DocId, text: string)
    requires WellFormed(ix)
    ensures AddDoc(ix, id, text).n == if id in ix.docs then ix.n else ix.n + 1
  {
  }

  /** How `add_doc` changes the postings of a term. */
  lemma AddDocPostings(ix: Index, id: DocId, text: string, t: Term)
    ensures t in AddDoc(ix, id, text).postings <==> t in ix.postings || t in Tokenize(text)
    ensures PostingsOf(AddDoc(ix, id, text), t) ==
            if t in Tokenize(text) then PostingsOf(ix, t) + {id} else PostingsOf(ix, t)
  {
  }

  /** How `add_doc` changes the document frequency of a term. */
  lemma AddDocDf(ix: Index, id: DocId, text: string, t: Term)
    ensures t in AddDoc(ix, id, text).df <==> t in ix.df || t in Tokenize(text)
    ensures DfOf(AddDoc(ix, id, text), t) == if t in Tokenize(text) then DfOf(ix, t) + 1 else DfOf(ix, t)
  {
  }

  /** How `add_doc` changes the term frequencies. */
  lemma AddDocTf(ix: Index, id: DocId, text: string, p: (Term, DocId))
    ensures p in AddDoc(ix, id, text).tf <==> p in ix.tf || (p.1 == id && p.0 in Tokenize(text))
    ensures p in AddDoc(ix, id, text).tf ==>
            AddDoc(ix, id, text).tf[p] ==
            if p.1 == id && p.0 in Tokenize(text) then Count(Tokenize(text), p.0) else ix.tf[p]
  {
    assert p.1 == id && p.0 in Tokenize(text) ==> p in TermPairs(Elems(Tokenize(text)), id);
  }

  /** Adding a document, even under an id already used, keeps the index well formed. */
  lemma AddDocWellFormed(ix: Index, id: DocId, text: string)
    requires WellFormed(ix)
    ensures WellFormed(AddDoc(ix, id, text))
  {
    var r := AddDoc(ix, id, text);
    forall p | p in r.tf ensures r.tf[p] >= 1 && p.1 in r.docs && p.1 in PostingsOf(r, p.0) {
      AddDocTf(ix, id, text, p);
      AddDocPostings(ix, id, text, p.0);
    }
    forall t, d | t in r.postings && d in r.postings[t] ensures (t, d) in r.tf {
      AddDocTf(ix, id, text, (t, d));
      AddDocPostings(ix, id, text, t);
    }
  }

  /**
   * After `add_doc(id, text)` the text is stored under `id`, and every term
   * of the text has the number of its occurrences as term frequency and
   * `id` in its postings.
   */
  lemma AddDocRecordsTerms(ix: Index, id: DocId, text: string, t: Term)
    requires t in Tokenize(text)
    ensures AddDoc(ix, id, text).docs == ix.docs[id := text]
    ensures AddDoc(ix, id, text).n == |ix.docs[id := text]|
    ensures (t, id) in AddDoc(ix, id, text).tf
    ensures AddDoc(ix, id, text).tf[(t, id)] == Count(Tokenize(text), t) >= 1
    ensures id in PostingsOf(AddDoc(ix, id, text), t)
  {
    AddDocTf(ix, id, text, (t, id));
    AddDocPostings(ix, id, text, t);
  }

  /**
   * A term that does not occur in the added text keeps its postings and its
   * document frequency, and the term frequencies of that term and of every
   * other document are unchanged.
   */
  lemma AddDocLeavesOtherTerms(ix: Index, id: DocId, text: string, t: Term, d: DocId)
    requires t !in Tokenize(text) || d != id
    ensures t !in Tokenize(text) ==> PostingsOf(AddDoc(ix, id, text), t) == PostingsOf(ix, t)
    ensures t !in Tokenize(text) ==> DfOf(AddDoc(ix, id, text), t) == DfOf(ix, t)
    ensures (t, d) in AddDoc(ix, id, text).tf <==> (t, d) in ix.tf
    ensures (t, d) in ix.tf ==> AddDoc(ix, id, text).tf[(t, d)] == ix.tf[(t, d)]
  {
    AddDocPostings(ix, id, text, t);
    AddDocDf(ix, id, text, t);
    AddDocTf(ix, id, text, (t, d));
  }

  /** With an id not used before, adding a document keeps the index faithful. */
  lemma AddFreshFaithful(ix: Index, id: DocId, text: string)
    requires WellFormed(ix) && Faithful(ix)
    requires id !in ix.docs
    ensures Faithful(AddDoc(ix, id, text))
  {
    AddFreshDf(ix, id, text);
    AddFreshTf(ix, id, text);
  }

  lemma AddFreshDf(ix: Index, id: DocId, text: string)
    requires WellFormed(ix) && Faithful(ix)
    requires id !in ix.docs
    ensures forall t :: t in AddDoc(ix, id, text).postings ==>
              DfOf(AddDoc(ix, id, text), t) == |AddDoc(ix, id, text).postings[t]|
    ensures forall t :: t in AddDoc(ix, id, text).df ==> t in AddDoc(ix, id, text).postings
  {
    var r := AddDoc(ix, id, text);
    forall t | t in r.postings ensures DfOf(r, t) == |r.postings[t]| {
      AddFreshDfAt(ix, id, text, t);
    }
    forall t | t in r.df ensures t in r.postings {
      AddDocPostings(ix, id, text, t);
      AddDocDf(ix, id, text, t);
    }
  }

  lemma AddFreshDfAt(ix: Index, id: DocId, text: string, t: Term)
    requires WellFormed(ix) && Faithful(ix)
    requires id !in ix.docs
    ensures DfOf(AddDoc(ix, id, text), t) == |PostingsOf(AddDoc(ix, id, text), t)|
  {
    AddDocPostings(ix, id, text, t);
    AddDocDf(ix, id, text, t);
    var old_p := PostingsOf(ix, t);
    assert DfOf(ix, t) == |old_p| by {
      if t !in ix.postings {
        assert t !in ix.df;
      }
    }
    if t in Tokenize(text) {
      assert id !in old_p;
      assert |old_p + {id}| == |old_p| + 1;
    }
  }

  lemma AddFreshTf(ix: Index, id: DocId, text: string)
    requires WellFormed(ix) && Faithful(ix)
    requires id !in ix.docs
    ensures forall p :: p in AddDoc(ix, id, text).tf ==>
              p.1 in AddDoc(ix, id, text).docs &&
              AddDoc(ix, id, text).tf[p] == Count(Tokenize(AddDoc(ix, id, text).docs[p.1]), p.0)
    ensures forall d, t :: d in AddDoc(ix, id, text).docs && t in Tokenize(AddDoc(ix, id, text).docs[d]) ==>
              (t, d) in AddDoc(ix, id, text).tf
  {
    var r := AddDoc(ix, id, text);
    forall p | p in r.tf ensures p.1 in r.docs && r.tf[p] == Count(Tokenize(r.docs[p.1]), p.0) {
      AddDocTf(ix, id, text, p);
    }
    forall d, t | d in r.docs && t in Tokenize(r.docs[d]) ensures (t, d) in r.tf {
      AddDocTf(ix, id, text, (t, d));
    }
  }

  /**
   * Re-adding an id whose earlier text also held term `t` increments the
   * document frequency of `t` again while its postings stay the same.
   */
  lemma ReAddDoubleCountsDf(ix: Index, id: DocId, text: string, t: Term)
    requires WellFormed(ix)
    requires t in Tokenize(text) && (t, id) in ix.tf
    ensures DfOf(AddDoc(ix, id, text), t) == DfOf(ix, t) + 1
    ensures PostingsOf(AddDoc(ix, id, text), t) == PostingsOf(ix, t)
  {
    AddDocPostings(ix, id, text, t);
    AddDocDf(ix, id, text, t);
    assert id in PostingsOf(ix, t);
  }

  /**
   * Re-adding an indexed id with a text that shares a term `t` with its
   * earlier text (for instance the same text again) leaves the index no
   * longer faithful: the document frequency of `t` exceeds its postings size.
   */
  lemma DuplicateIdBreaksFaithful(ix: Index, id: DocId, text: string, t: Term)
    requires WellFormed(ix) && Faithful(ix)
    requires id in ix.docs && t in Tokenize(ix.docs[id]) && t in Tokenize(text)
    ensures t in AddDoc(ix, id, text).postings
    ensures DfOf(AddDoc(ix, id, text), t) == |AddDoc(ix, id, text).postings[t]| + 1
    ensures !Faithful(AddDoc(ix, id, text))
  {
    assert (t, id) in ix.tf;
    ReAddDoubleCountsDf(ix, id, text, t);
    AddDocPostings(ix, id, text, t);
  }

  /**
   * Re-adding an indexed id with a text that lacks a term `t` of its earlier
   * text leaves a stale entry: `t` keeps its term frequency in `id` and `id`
   * stays in its postings, so a search for `t` still finds the document,
   * although the text now stored under `id` does not contain `t`.
   */
  lemma ReAddKeepsStaleTerms(ix: Index, id: DocId, text: string, t: Term)
    requires WellFormed(ix) && Faithful(ix)
    requires id in ix.docs && t in Tokenize(ix.docs[id]) && t !in Tokenize(text)
    ensures t !in Tokenize(AddDoc(ix, id, text).docs[id])
    ensures (t, id) in AddDoc(ix, id, text).tf && AddDoc(ix, id, text).tf[(t, id)] == ix.tf[(t, id)] >= 1
    ensures id in PostingsOf(AddDoc(ix, id, text), t)
    ensures id in Candidates(AddDoc(ix, id, text), [t])
    ensures !Faithful(AddDoc(ix, id, text))
  {
    var r := AddDoc(ix, id, text);
    assert (t, id) in ix.tf;
    AddDocLeavesOtherTerms(ix, id, text, t, id);
    assert id in PostingsOf(ix, t);
    assert [t][..0] == [];
    assert Count(Tokenize(r.docs[id]), t) == 0;
  }

  datatype AddError = DuplicateId(id: DocId)

  datatype Result<T> = Ok(value: T) | Err(error: AddError)

  /** Adding that refuses an id already indexed instead of double-counting it. */
  function AddNew(ix: Index, id: DocId, text: string): (r: Result<Index>)
    ensures r.Err? <==> id in ix.docs
    ensures r.Err? ==> r.error == DuplicateId(id)
    ensures r.Ok? ==> r.value.docs == ix.docs[id := text] && r.value.n == |ix.docs| + 1
  {
    if id in ix.docs then Err(DuplicateId(id)) else Ok(AddDoc(ix, id, text))
  }

  /** Refusing duplicate ids keeps the index well formed and faithful. */
  lemma AddNewKeepsInvariants(ix: Index, id: DocId, text: string)
    requires WellFormed(ix) && Faithful(ix)
    ensures AddNew(ix, id, text).Ok? ==> WellFormed(AddNew(ix, id, text).value)
    ensures AddNew(ix, id, text).Ok? ==> Faithful(AddNew(ix, id, text).value)
  {
    if id !in ix.docs {
      AddDocWellFormed(ix, id, text);
      AddFreshFaithful(ix, id, text);
    }
  }

  /** The index built by adding the documents in order, starting empty. */
  function Build(entries: seq<(DocId, string)>): Index
  {
    if entries == [] then Empty
    else
      var last := entries[|entries| - 1];
      AddDoc(Build(entries[..|entries| - 1]), last.0, last.1)
  }

  function Ids(entries: seq<(DocId, string)>): set<DocId>
  {
    set i | 0 <= i < |entries| :: entries[i].0
  }

  lemma IdsSnoc(entries: seq<(DocId, string)>)
    requires entries != []
    ensures Ids(entries) == Ids(entries[..|entries| - 1]) + {entries[|entries| - 1].0}
  {
    var init := entries[..|entries| - 1];
    forall i | 0 <= i < |init| ensures init[i].0 in Ids(entries) {
      assert init[i] == entries[i];
    }
    forall x | x in Ids(entries) ensures x in Ids(init) + {entries[|entries| - 1].0} {
      var i :| 0 <= i < |entries| && entries[i].0 == x;
      if i < |init| {
        assert init[i] == entries[i];
      }
    }
  }

  /**
   * After any sequence of additions the index is well formed, holds exactly
   * the ids added, and N is the number of distinct ids added.
   */
  lemma {:induction false} BuildWellFormed(entries: seq<(DocId, string)>)
    ensures WellFormed(Build(entries))
    ensures Build(entries).docs.Keys == Ids(entries)
    ensures Build(entries).n == |Ids(entries)|
  {
    if entries != [] {
      var init := entries[..|entries| - 1];
      var last := entries[|entries| - 1];
      BuildWellFormed(init);
      AddDocWellFormed(Build(init), last.0, last.1);
      IdsSnoc(entries);
    }
  }

  /**
   * After a sequence of additions with distinct ids the index is faithful:
   * every document frequency equals the size of the term's postings.
   */
  lemma {:induction false} BuildFaithful(entries: seq<(DocId, string)>)
    requires forall i, j :: 0 <= i < j < |entries| ==> entries[i].0 != entries[j].0
    ensures Faithful(Build(entries))
  {
    if entries != [] {
      var init := entries[..|entries| - 1];
      var last := entries[|entries| - 1];
      BuildFaithful(init);
      BuildWellFormed(init);
      assert last.0 !in Ids(init) by {
        forall i | 0 <= i < |init| ensures init[i].0 != last.0 {
          assert init[i] == entries[i];
        }
      }
      AddFreshFaithful(Build(init), last.0, last.1);
    }
  }

  /** The documents containing at least one of the terms: the union of their postings. */
  function Candidates(ix: Index, terms: seq<Term>): set<DocId>
  {
    if terms == [] then {}
    else Candidates(ix, terms[..|terms| - 1]) + PostingsOf(ix, terms[|terms| - 1])
  }

  /** A document is a candidate exactly when it is in the postings of one of the terms. */
  lemma {:induction false} CandidatesUnion(ix: Index, terms: seq<Term>, d: DocId)
    ensures d in Candidates(ix, terms) <==> exists t :: t in terms && d in PostingsOf(ix, t)
  {
    if terms != [] {
      var init := terms[..|terms| - 1];
      var last := terms[|terms| - 1];
      CandidatesUnion(ix, init, d);
      assert terms == init + [last];
      if d in PostingsOf(ix, last) {
        assert last in terms;
      }
    }
  }

  /**
   * A document is a candidate exactly when it contains one of the query
   * terms, so a document with none of them is never scored.
   */
  lemma {:induction false} CandidatesIff(ix: Index, terms: seq<Term>, d: DocId)
    requires WellFormed(ix)
    ensures d in Candidates(ix, terms) <==> exists t :: t in terms && (t, d) in ix.tf
  {
    if terms != [] {
      var init := terms[..|terms| - 1];
      var last := terms[|terms| - 1];
      CandidatesIff(ix, init, d);
      assert terms == init + [last];
      if d in PostingsOf(ix, last) {
        assert (last, d) in ix.tf;
      }
      if (last, d) in ix.tf {
        assert d in PostingsOf(ix, last);
      }
    }
  }

  /** The idf denominator `1 + df[term]`, never zero, also for an unseen term. */
  function IdfDenominator(df: nat): (d: nat)
    ensures d >= 1 && d > df
  {
    1 + df
  }

  /**
   * The TF-IDF weight of a term in a document.  The source computes
   * `(1 + log(tf)) * log(1 + N / (1 + df))` in floating point; the model
   * keeps the arguments and leaves the arithmetic to `idf` (of N and the
   * denominator) and `weight` (of the term frequency and the idf).
   */
  function TermWeight(ix: Index, t: Term, d: DocId, idf: (nat, nat) -> int, weight: (nat, int) -> int): int
    requires (t, d) in ix.tf
  {
    weight(ix.tf[(t, d)], idf(ix.n, IdfDenominator(DfOf(ix, t))))
  }

  /**
   * The weight of a term in a document reads only the pair's term frequency,
   * N and the term's document frequency: two indexes that agree on those
   * give the same weight, whatever else they hold.
   */
  lemma TermWeightLocal(ix: Index, ix': Index, t: Term, d: DocId, idf: (nat, nat) -> int, weight: (nat, int) -> int)
    requires (t, d) in ix.tf && (t, d) in ix'.tf
    requires ix.tf[(t, d)] == ix'.tf[(t, d)] && ix.n == ix'.n && DfOf(ix, t) == DfOf(ix', t)
    ensures TermWeight(ix, t, d, idf, weight) == TermWeight(ix', t, d, idf, weight)
  {
  }

  /** A document's score: the sum of the weights of the query terms it contains, in query order. */
  function DocScore(ix: Index, terms: seq<Term>, d: DocId, idf: (nat, nat) -> int, weight: (nat, int) -> int): (r: int)
    ensures (forall i :: 0 <= i < |terms| ==> (terms[i], d) !in ix.tf) ==> r == 0
  {
    if terms == [] then 0
    else
      var t := terms[|terms| - 1];
      DocScore(ix, terms[..|terms| - 1], d, idf, weight)
        + (if (t, d) in ix.tf then TermWeight(ix, t, d, idf, weight) else 0)
  }

  /** Every candidate paired with its score: what the search ranks. */
  ghost function ScoredCandidates(ix: Index, terms: seq<Term>, idf: (nat, nat) -> int, weight: (nat, int) -> int): set<Scored>
  {
    set d | d in Candidates(ix, terms) :: Scored(DocScore(ix, terms, d, idf, weight), d)
  }
}
