/**
 * The earlier engine: each term's postings are a list kept as
 * `sorted(set(...))` after every insertion, every weight recomputes its idf,
 * and the ranking sorts all scores and keeps the first `k`.
 *
 * The floating-point weights are abstract as in the phase-3 engine.
 */
module MiniSearch {
  import opened Seqs
  import opened Tokenizer
  import opened TermCounts
  import opened Ranking
  import opened InvertedIndex

  /** Strictly increasing: sorted and without repeats. */
  predicate StrictlyAscending(s: seq<DocId>)
  {
    forall i, j :: 0 <= i < j < |s| ==> s[i] < s[j]
  }

  /** `x` put in its place in a strictly increasing list, unless already there. */
  function InsertAscending(x: DocId, s: seq<DocId>): (r: seq<DocId>)
    ensures Elems(r) == Elems(s) + {x}
  {
    if s == [] then [x]
    else if x < s[0] then [x] + s
    else if x == s[0] then s
    else
      assert s == [s[0]] + s[1..];
      var t := InsertAscending(x, s[1..]);
      assert Elems([s[0]] + t) == {s[0]} + Elems(t);
      [s[0]] + t
  }

  lemma {:induction false} InsertAscendingSorted(x: DocId, s: seq<DocId>)
    requires StrictlyAscending(s)
    ensures StrictlyAscending(InsertAscending(x, s))
    ensures InsertAscending(x, s) != [] && (s != [] ==> InsertAscending(x, s)[0] == Min(x, s[0]))
  {
    if s == [] {
    } else if x < s[0] {
      ConsAscending(x, s);
    } else if x > s[0] {
      AscendingTail(s);
      InsertAscendingSorted(x, s[1..]);
      var t := InsertAscending(x, s[1..]);
      assert s[0] < t[0] by {
        if s[1..] != [] {
          assert s[1..][0] == s[1];
        }
      }
      ConsAscending(s[0], t);
    }
  }

  /** A value below the head of a strictly increasing list can be put in front of it. */
  lemma ConsAscending(a: DocId, t: seq<DocId>)
    requires StrictlyAscending(t) && (t != [] ==> a < t[0])
    ensures StrictlyAscending([a] + t)
  {
    var r := [a] + t;
    forall i, j | 0 <= i < j < |r| ensures r[i] < r[j] {
      if i == 0 {
        assert r[j] == t[j - 1];
        assert j - 1 == 0 || t[0] < t[j - 1];
      } else {
        assert r[i] == t[i - 1] && r[j] == t[j - 1];
      }
    }
  }

  /** What `sorted(set(xs))` returns. */
  function SortedSet(s: seq<DocId>): (r: seq<DocId>)
    ensures StrictlyAscending(r)
    ensures Elems(r) == Elems(s)
  {
    if s == [] then []
    else
      var init := s[..|s| - 1];
      assert s == init + [s[|s| - 1]];
      InsertAscendingSorted(s[|s| - 1], SortedSet(init));
      InsertAscending(s[|s| - 1], SortedSet(init))
  }

  /** A strictly increasing list is determined by its elements. */
  lemma {:induction false} AscendingUnique(a: seq<DocId>, b: seq<DocId>)
    requires StrictlyAscending(a) && StrictlyAscending(b) && Elems(a) == Elems(b)
    ensures a == b
    decreases |a|
  {
    if a != [] {
      assert b != [] by {
        assert a[0] in Elems(b);
      }
      AscendingHead(a, b[0]);
      AscendingHead(b, a[0]);
      assert Elems(a[1..]) == Elems(a) - {a[0]} by {
        AscendingTail(a);
      }
      assert Elems(b[1..]) == Elems(b) - {b[0]} by {
        AscendingTail(b);
      }
      AscendingUnique(a[1..], b[1..]);
      assert a == [a[0]] + a[1..] && b == [b[0]] + b[1..];
    } else {
      assert Elems(a) == {};
      NoDuplicatesCard(b);
    }
  }

  lemma AscendingHead(a: seq<DocId>, x: DocId)
    requires StrictlyAscending(a) && a != [] && x in Elems(a)
    ensures a[0] <= x
  {
  }

  lemma AscendingTail(a: seq<DocId>)
    requires StrictlyAscending(a) && a != []
    ensures StrictlyAscending(a[1..]) && Elems(a[1..]) == Elems(a) - {a[0]}
  {
    assert a == [a[0]] + a[1..];
    forall x | x in Elems(a[1..]) ensures x != a[0] {
      var m :| 0 <= m < |a[1..]| && a[1..][m] == x;
      assert a[1..][m] == a[m + 1];
    }
  }

  /** The postings lists read as sets. */
  function PostingSets(postings: map<Term, seq<DocId>>): map<Term, set<DocId>>
  {
    map t | t in postings :: Elems(postings[t])
  }

  lemma PostingSetsUpdate(postings: map<Term, seq<DocId>>, t: Term, list: seq<DocId>)
    ensures PostingSets(postings[t := list]) == PostingSets(postings)[t := Elems(list)]
  {
  }

  /**
   * Appending `id` to the list of `t` and replacing it by `sorted(set(...))`
   * adds `id` to the postings set of `t` and keeps the list sorted.
   */
  lemma AppendPosting(postings: map<Term, seq<DocId>>, t: Term, id: DocId)
    ensures var list := if t in postings then postings[t] else [];
            var p := PostingSets(postings);
            PostingSets(postings[t := SortedSet(list + [id])]) ==
            p[t := (if t in p then p[t] else {}) + {id}]
  {
    var list := if t in postings then postings[t] else [];
    var p := PostingSets(postings);
    assert (if t in p then p[t] else {}) == Elems(list);
    assert Elems(list + [id]) == Elems(list) + {id};
    PostingSetsUpdate(postings, t, SortedSet(list + [id]));
  }

  /** Replacing one list by a sorted one keeps every list sorted and leaves the others alone. */
  lemma ReplaceSorted(postings: map<Term, seq<DocId>>, t: Term, list: seq<DocId>, updated: map<Term, seq<DocId>>)
    requires forall u :: u in postings ==> StrictlyAscending(postings[u])
    requires StrictlyAscending(list) && updated == postings[t := list]
    ensures forall u :: u in updated ==> StrictlyAscending(updated[u])
    ensures forall u :: u in postings && u != t ==> u in updated && updated[u] == postings[u]
  {
  }

  class MiniSearchEngine {
    var docs: map<DocId, string>
    var postings: map<Term, seq<DocId>>
    var tf: map<(Term, DocId), nat>
    var df: map<Term, nat>
    var N: nat

    const idfOf: (nat, nat) -> int
    const weightOf: (nat, int) -> int

    /** The index tables held by the engine, postings read as sets. */
    ghost function State(): Index
      reads this
    {
      Index(docs, PostingSets(postings), tf, df, N)
    }

    /** Every postings list is in increasing order without repeats. */
    ghost predicate Sorted()
      reads this
    {
      forall t :: t in postings ==> StrictlyAscending(postings[t])
    }

    ghost predicate Valid()
      reads this
    {
      WellFormed(State()) && Sorted()
    }

    constructor(idfOf: (nat, nat) -> int, weightOf: (nat, int) -> int)
      ensures Valid()
      ensures State() == Empty && postings == map[]
      ensures this.idfOf == idfOf && this.weightOf == weightOf
    {
      docs := map[];
      postings := map[];
      tf := map[];
      df := map[];
      N := 0;
      this.idfOf := idfOf;
      this.weightOf := weightOf;
    }

    /**
     * `add_doc`: the same tables as the phase-3 engine, each postings list
     * re-sorted and de-duplicated after the id is appended.
     */
    method AddDoc(docId: DocId, text: string)
      requires Valid()
      modifies this`docs, this`postings, this`tf, this`df, this`N
      ensures Valid()
      ensures State() == InvertedIndex.AddDoc(old(State()), docId, text)
      ensures forall t :: t in old(postings) && t !in Tokenize(text) ==> t in postings && postings[t] == old(postings)[t]
    {
      docs := docs[docId := text];
      N := |docs|;
      var tokens := Tokenize(text);
      var terms := Distinct(tokens);
      ghost var start := State();
      RecordNone(start, docId, tokens);
      assert Elems(terms[..0]) == {};
      for i := 0 to |terms|
        invariant Sorted()
        invariant State() == Record(start, docId, tokens, Elems(terms[..i]))
        invariant forall t :: t in old(postings) && t !in Elems(terms[..i]) ==> t in postings && postings[t] == old(postings)[t]
      {
        ElemsSnoc(terms, i);
        assert terms[i] !in Elems(terms[..i]);
        RecordStep(start, docId, tokens, Elems(terms[..i]), terms[i]);
        CountTerm(terms[i], docId, Count(tokens, terms[i]));
      }
      assert terms[..|terms|] == terms;
      AddDocWellFormed(old(State()), docId, text);
    }

    /** The body of the `add_doc` loop: record `c` occurrences of `term` in document `docId`. */
    method CountTerm(term: Term, docId: DocId, c: nat)
      requires Sorted()
      modifies this`postings, this`tf, this`df
      ensures Sorted()
      ensures State() == RecordOne(old(State()), docId, term, c)
      ensures forall t :: t in old(postings) && t != term ==> t in postings && postings[t] == old(postings)[t]
    {
      ghost var before := State();
      tf := tf[(term, docId) := c];
      df := df[term := (if term in df then df[term] else 0) + 1];
      var list := if term in postings then postings[term] else [];
      postings := postings[term := SortedSet(list + [docId])];
      ghost var after := RecordOne(before, docId, term, c);
      assert tf == after.tf && df == after.df;
      assert PostingSets(postings) == after.postings by {
        AppendPosting(old(postings), term, docId);
      }
      assert State() == after;
      ReplaceSorted(old(postings), term, SortedSet(list + [docId]), postings);
    }

    /** `_tfidf`: the weight of an indexed term in a document, its idf computed afresh. */
    method TfIdf(term: Term, docId: DocId) returns (v: int)
      requires (term, docId) in tf
      ensures v == TermWeight(State(), term, docId, idfOf, weightOf)
    {
      var c := tf[(term, docId)];
      var idf := idfOf(N, 1 + (if term in df then df[term] else 0));
      v := weightOf(c, idf);
    }

    /** The score of one candidate: the weights of the query terms it contains, summed in query order. */
    method Score(terms: seq<Term>, docId: DocId) returns (s: int)
      ensures s == DocScore(State(), terms, docId, idfOf, weightOf)
    {
      s := 0;
      for i := 0 to |terms|
        invariant s == DocScore(State(), terms[..i], docId, idfOf, weightOf)
      {
        assert terms[..i + 1][..i] == terms[..i];
        if (terms[i], docId) in tf {
          var w := TfIdf(terms[i], docId);
          s := s + w;
        }
      }
      assert terms[..|terms|] == terms;
    }

    /** The candidates of `search`: the union of the postings lists of the query terms. */
    method CollectCandidates(terms: seq<Term>) returns (candidates: set<DocId>)
      ensures candidates == Candidates(State(), terms)
    {
      candidates := {};
      for i := 0 to |terms|
        invariant candidates == Candidates(State(), terms[..i])
      {
        assert terms[..i + 1][..i] == terms[..i];
        candidates := candidates + (if terms[i] in postings then Elems(postings[terms[i]]) else {});
      }
      assert terms[..|terms|] == terms;
    }

    /**
     * The `(score, id)` list of `search`, one entry per candidate, in the
     * (unspecified) order in which the candidate set is visited.
     */
    method ScoreCandidates(terms: seq<Term>, candidates: set<DocId>) returns (scores: seq<Scored>)
      ensures NoDuplicates(scores) && |scores| == |candidates|
      ensures Elems(scores) == set d | d in candidates :: Scored(DocScore(State(), terms, d, idfOf, weightOf), d)
    {
      scores := [];
      var remaining := candidates;
      ghost var done: set<DocId> := {};
      while remaining != {}
        invariant remaining + done == candidates && remaining !! done
        invariant |scores| == |done|
        invariant NoDuplicates(scores)
        invariant forall i :: 0 <= i < |scores| ==> scores[i].doc in done
        invariant Elems(scores) == set d | d in done :: Scored(DocScore(State(), terms, d, idfOf, weightOf), d)
        decreases remaining
      {
        if forall d :: d !in remaining {
          assert false;
        }
        var d :| d in remaining;
        var s := Score(terms, d);
        assert Elems(scores + [Scored(s, d)]) == Elems(scores) + {Scored(s, d)};
        scores := scores + [Scored(s, d)];
        remaining := remaining - {d};
        done := done + {d};
      }
    }

    /**
     * `search`: all candidates sorted best first, then the slice `[:k]`;
     * a negative `k` drops that many entries from the end, as a Python
     * slice does.  No result for a query without terms.
     */
    method Search(query: string, k: int) returns (result: seq<Scored>)
      ensures var n := |Candidates(State(), Tokenize(query))|;
              |result| == if Tokenize(query) == [] then 0
                           else if 0 <= k then Min(k, n)
                           else if n + k < 0 then 0 else n + k
      ensures forall i :: 0 <= i < |result| ==> result[i].doc in Candidates(State(), Tokenize(query))
      ensures Tokenize(query) != [] ==>
                IsTop(result, ScoredCandidates(State(), Tokenize(query), idfOf, weightOf))
    {
      var terms := Tokenize(query);
      if terms == [] {
        return [];
      }
      var candidates := CollectCandidates(terms);
      var scores := ScoreCandidates(terms, candidates);
      var sorted := SortDesc(scores);
      result := Take(sorted, k);
      SortThenTakeIsTop(k, scores);
    }
  }
}
