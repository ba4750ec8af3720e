/**
 * Ranking of scored documents.  A result entry is the Python tuple
 * `(score, doc_id)`; tuples compare lexicographically, and both engine
 * versions return the largest first.  Scores are abstract integers: the
 * floating-point TF-IDF values are not modelled.
 */
module Ranking {
  import opened Seqs

  type DocId = int

  datatype Scored = Scored(score: int, doc: DocId)

  /** `a > b` in Python's tuple order. */
  predicate Outranks(a: Scored, b: Scored)
  {
    a.score > b.score || (a.score == b.score && a.doc > b.doc)
  }

  /** `a >= b` in Python's tuple order. */
  predicate AtLeast(a: Scored, b: Scored)
  {
    !Outranks(b, a)
  }

  /** Ordered largest first, equal tuples allowed (what `sort(reverse=True)` gives). */
  predicate NonIncreasing(s: seq<Scored>)
  {
    forall i, j :: 0 <= i < j < |s| ==> AtLeast(s[i], s[j])
  }

  /** Ordered strictly largest first. */
  predicate Descending(s: seq<Scored>)
  {
    forall i, j :: 0 <= i < j < |s| ==> Outranks(s[i], s[j])
  }

  /** `x` placed into `t` after every entry at least as large as `x`. */
  function Insert(x: Scored, t: seq<Scored>): (r: seq<Scored>)
    ensures |r| == |t| + 1
    ensures multiset(r) == multiset(t) + multiset{x}
  {
    if t == [] then [x]
    else if Outranks(x, t[0]) then [x] + t
    else
      assert t == [t[0]] + t[1..];
      [t[0]] + Insert(x, t[1..])
  }

  lemma {:induction false} InsertMembers(x: Scored, t: seq<Scored>, y: Scored)
    ensures y in Insert(x, t) <==> y == x || y in t
  {
    assert y in Insert(x, t) <==> y in multiset(Insert(x, t));
    assert y in t <==> y in multiset(t);
  }

  /** Inserting into a sorted list keeps it sorted. */
  lemma {:induction false} InsertSorted(x: Scored, t: seq<Scored>)
    requires NonIncreasing(t)
    ensures NonIncreasing(Insert(x, t))
  {
    if t != [] && !Outranks(x, t[0]) {
      InsertSorted(x, t[1..]);
      var r := Insert(x, t);
      assert r == [t[0]] + Insert(x, t[1..]);
      forall j | 0 < j < |r| ensures AtLeast(r[0], r[j]) {
        InsertMembers(x, t[1..], r[j]);
        if r[j] != x {
          var q :| 0 <= q < |t[1..]| && t[1..][q] == r[j];
          assert t[1..][q] == t[q + 1];
        }
      }
    }
  }

  /** Inserting a new entry into a list without duplicates gives one without duplicates. */
  lemma {:induction false} InsertNoDuplicates(x: Scored, t: seq<Scored>)
    requires NoDuplicates(t) && x !in t
    ensures NoDuplicates(Insert(x, t))
  {
    if t != [] && !Outranks(x, t[0]) {
      assert t == [t[0]] + t[1..];
      InsertNoDuplicates(x, t[1..]);
      InsertMembers(x, t[1..], t[0]);
    }
  }

  /** The full sort largest first: the entries inserted one at a time, left to right. */
  function SortDesc(s: seq<Scored>): (r: seq<Scored>)
    ensures |r| == |s| && multiset(r) == multiset(s)
    ensures NonIncreasing(r)
  {
    if s == [] then []
    else
      var init := s[..|s| - 1];
      assert s == init + [s[|s| - 1]];
      InsertSorted(s[|s| - 1], SortDesc(init));
      Insert(s[|s| - 1], SortDesc(init))
  }

  /** Sorting entries without duplicates gives a strictly descending list. */
  lemma {:induction false} SortDescDescending(s: seq<Scored>)
    requires NoDuplicates(s)
    ensures Descending(SortDesc(s))
  {
    SortDescNoDuplicates(s);
    var r := SortDesc(s);
    forall i, j | 0 <= i < j < |r| ensures Outranks(r[i], r[j]) {
      assert AtLeast(r[i], r[j]) && r[i] != r[j];
    }
  }

  lemma {:induction false} SortDescNoDuplicates(s: seq<Scored>)
    requires NoDuplicates(s)
    ensures NoDuplicates(SortDesc(s))
  {
    if s != [] {
      var init := s[..|s| - 1];
      var last := s[|s| - 1];
      assert NoDuplicates(init);
      SortDescNoDuplicates(init);
      assert last !in SortDesc(init) by {
        assert last in SortDesc(init) <==> last in multiset(SortDesc(init));
        assert last in init <==> last in multiset(init);
      }
      InsertNoDuplicates(last, SortDesc(init));
    }
  }

  /** Python's slice `s[:k]`: a negative `k` counts from the end. */
  function Take<T>(s: seq<T>, k: int): (r: seq<T>)
    ensures 0 <= k ==> |r| == Min(k, |s|)
    ensures k < 0 ==> |r| == if |s| + k < 0 then 0 else |s| + k
    ensures r == s[..|r|]
  {
    if 0 <= k then s[..Min(k, |s|)]
    else if |s| + k < 0 then []
    else s[..|s| + k]
  }

  /**
   * What `heapq.nlargest(k, s)` returns: nothing for `k <= 0`, else the
   * first `k` of the full sort, i.e. `min(k, len(s))` entries of `s`,
   * largest first.
   */
  function NLargestSpec(k: int, s: seq<Scored>): seq<Scored>
  {
    if k <= 0 then [] else SortDesc(s)[..Min(k, |s|)]
  }

  /**
   * `nlargest` returns `min(k, len(s))` entries of `s` (none for `k <= 0`),
   * ordered largest first.
   */
  lemma NLargestSpecSorted(k: int, s: seq<Scored>)
    ensures |NLargestSpec(k, s)| == if k <= 0 then 0 else Min(k, |s|)
    ensures multiset(NLargestSpec(k, s)) <= multiset(s)
    ensures NonIncreasing(NLargestSpec(k, s))
  {
    if k > 0 {
      var sorted := SortDesc(s);
      var m := Min(k, |s|);
      var top := sorted[..m];
      assert top == NLargestSpec(k, s);
      assert sorted == top + sorted[m..];
      assert multiset(sorted) == multiset(top) + multiset(sorted[m..]);
      assert multiset(sorted) == multiset(s);
      forall i, j | 0 <= i < j < |top| ensures AtLeast(top[i], top[j]) {
        assert top[i] == sorted[i] && top[j] == sorted[j];
      }
    }
  }

  /** Inserting into a list and keeping its first `m` is inserting into its first `m`. */
  lemma {:induction false} InsertPrefix(x: Scored, t: seq<Scored>, m: nat)
    requires m <= |t|
    ensures Insert(x, t)[..m] == Insert(x, t[..m])[..m]
  {
    if m > 0 {
      var p := t[..m];
      assert p[0] == t[0];
      if Outranks(x, t[0]) {
        assert Insert(x, t)[..m] == [x] + t[..m - 1];
        assert Insert(x, p)[..m] == [x] + p[..m - 1];
      } else {
        assert p[1..] == t[1..][..m - 1];
        InsertPrefix(x, t[1..], m - 1);
        assert Insert(x, t)[..m] == [t[0]] + Insert(x, t[1..])[..m - 1];
        assert Insert(x, p)[..m] == [t[0]] + Insert(x, p[1..])[..m - 1];
      }
    }
  }

  /** An entry not above the last one of a sorted list lands at its end. */
  lemma {:induction false} InsertBelowLast(x: Scored, t: seq<Scored>)
    requires t != [] && NonIncreasing(t)
    requires !Outranks(x, t[|t| - 1])
    ensures Insert(x, t) == t + [x]
  {
    if |t| > 1 {
      assert AtLeast(t[0], t[|t| - 1]);
      assert t[1..][|t[1..]| - 1] == t[|t| - 1];
      InsertBelowLast(x, t[1..]);
      assert t == [t[0]] + t[1..];
    }
  }

  /**
   * One step of the bounded selection: `top` holds the first `k` of the
   * sorted entries seen so far and `x` arrives; the result holds the first
   * `k` of the sorted entries including `x`.
   */
  lemma OfferStep(k: int, top: seq<Scored>, sorted: seq<Scored>, x: Scored)
    requires 0 < k && NonIncreasing(sorted)
    requires top == sorted[..Min(k, |sorted|)]
    ensures |top| < k ==> Insert(x, top) == Insert(x, sorted)[..Min(k, |sorted| + 1)]
    ensures |top| == k && Outranks(x, top[k - 1]) ==> Insert(x, top)[..k] == Insert(x, sorted)[..k]
    ensures |top| == k && !Outranks(x, top[k - 1]) ==> top == Insert(x, sorted)[..k]
  {
    if |top| < k {
      assert top == sorted;
    } else {
      InsertPrefix(x, sorted, k);
      if !Outranks(x, top[k - 1]) {
        assert NonIncreasing(top);
        InsertBelowLast(x, top);
        assert (top + [x])[..k] == top;
      }
    }
  }

  /**
   * `heapq.nlargest(k, items)` as a bounded selection: `top` keeps the `k`
   * largest entries seen so far, largest first; an entry that beats the
   * smallest kept one replaces it.
   */
  method NLargest(k: int, items: seq<Scored>) returns (top: seq<Scored>)
    ensures top == NLargestSpec(k, items)
  {
    top := [];
    if k <= 0 {
      return;
    }
    for i := 0 to |items|
      invariant top == SortDesc(items[..i])[..Min(k, i)]
    {
      var x := items[i];
      ghost var sorted := SortDesc(items[..i]);
      assert items[..i + 1][..i] == items[..i];
      assert SortDesc(items[..i + 1]) == Insert(x, sorted);
      OfferStep(k, top, sorted, x);
      if |top| < k {
        top := Insert(x, top);
      } else if Outranks(x, top[k - 1]) {
        top := Insert(x, top)[..k];
      }
    }
    assert items[..|items|] == items;
  }

  /**
   * `r` is a top list of the set `S`: strictly largest first, drawn from `S`,
   * and every entry of `S` left out ranks below every entry kept.
   */
  ghost predicate IsTop(r: seq<Scored>, S: set<Scored>)
  {
    && Descending(r)
    && (forall i :: 0 <= i < |r| ==> r[i] in S)
    && (forall x, i :: x in S && x !in r && 0 <= i < |r| ==> Outranks(r[i], x))
  }

  /** The head of a top list is the largest entry of the set. */
  lemma TopHeadIsMax(r: seq<Scored>, S: set<Scored>, x: Scored)
    requires IsTop(r, S) && r != [] && x in S
    ensures AtLeast(r[0], x)
  {
    if x in r {
      var j :| 0 <= j < |r| && r[j] == x;
      assert j == 0 || Outranks(r[0], r[j]);
    }
  }

  /** Dropping the head of a top list gives a top list of the rest of the set. */
  lemma TopTail(r: seq<Scored>, S: set<Scored>)
    requires IsTop(r, S) && r != []
    ensures IsTop(r[1..], S - {r[0]})
  {
    assert r == [r[0]] + r[1..];
    forall i | 0 <= i < |r[1..]| ensures r[1..][i] in S - {r[0]} {
      assert Outranks(r[0], r[i + 1]);
    }
    forall x, i | x in S - {r[0]} && x !in r[1..] && 0 <= i < |r[1..]|
      ensures Outranks(r[1..][i], x)
    {
      assert r[1..][i] == r[i + 1];
    }
  }

  /** A top list is determined by its set and its length. */
  lemma {:induction false} TopUnique(r1: seq<Scored>, r2: seq<Scored>, S: set<Scored>)
    requires IsTop(r1, S) && IsTop(r2, S) && |r1| == |r2|
    ensures r1 == r2
    decreases |r1|
  {
    if r1 != [] {
      TopHeadIsMax(r1, S, r2[0]);
      TopHeadIsMax(r2, S, r1[0]);
      assert r1[0] == r2[0];
      TopTail(r1, S);
      TopTail(r2, S);
      TopUnique(r1[1..], r2[1..], S - {r1[0]});
      assert r1 == [r1[0]] + r1[1..] && r2 == [r2[0]] + r2[1..];
    }
  }

  /** Any prefix of the full sort of distinct entries is a top list of them. */
  lemma SortPrefixIsTop(s: seq<Scored>, m: nat)
    requires NoDuplicates(s) && m <= |s|
    ensures IsTop(SortDesc(s)[..m], Elems(s))
  {
    var sorted := SortDesc(s);
    SortDescDescending(s);
    var r := sorted[..m];
    forall i | 0 <= i < |r| ensures r[i] in Elems(s) {
      assert r[i] in multiset(sorted);
    }
    forall x, i | x in Elems(s) && x !in r && 0 <= i < |r| ensures Outranks(r[i], x) {
      assert x in multiset(sorted);
      var j :| 0 <= j < |sorted| && sorted[j] == x;
      assert m <= j;
      assert Outranks(sorted[i], sorted[j]);
    }
  }

  /**
   * The first `k` of a full sort of distinct entries: strictly largest
   * first, `min(k, |s|)` long (none for `k <= 0`), and the only top list of
   * that length, so it does not depend on the order of `s`.
   */
  lemma NLargestIsTop(k: int, s: seq<Scored>)
    requires NoDuplicates(s)
    ensures |NLargestSpec(k, s)| == (if k <= 0 then 0 else Min(k, |s|))
    ensures IsTop(NLargestSpec(k, s), Elems(s))
    ensures forall r :: IsTop(r, Elems(s)) && |r| == |NLargestSpec(k, s)| ==> r == NLargestSpec(k, s)
  {
    if k > 0 {
      SortPrefixIsTop(s, Min(k, |s|));
    }
    forall r | IsTop(r, Elems(s)) && |r| == |NLargestSpec(k, s)| ensures r == NLargestSpec(k, s) {
      TopUnique(r, NLargestSpec(k, s), Elems(s));
    }
  }

  /** With `k >= 0` the bounded selection and the full sort followed by `[:k]` agree. */
  lemma NLargestIsSortThenTake(k: int, s: seq<Scored>)
    requires 0 <= k
    ensures NLargestSpec(k, s) == Take(SortDesc(s), k)
  {
  }

  /**
   * `scores.sort(reverse=True); scores[:k]` over distinct entries: a top
   * list whose length is that of the slice, also for a negative `k`.
   */
  lemma SortThenTakeIsTop(k: int, s: seq<Scored>)
    requires NoDuplicates(s)
    ensures |Take(SortDesc(s), k)| == if 0 <= k then Min(k, |s|) else if |s| + k < 0 then 0 else |s| + k
    ensures IsTop(Take(SortDesc(s), k), Elems(s))
  {
    SortPrefixIsTop(s, |Take(SortDesc(s), k)|);
  }
}
