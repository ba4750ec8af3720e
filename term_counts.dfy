/**
 * What `Counter(tokens)` provides to `add_doc`: each distinct term with its
 * number of occurrences, the distinct terms in order of first occurrence
 * (the order in which the counter's items are visited).
 */
module TermCounts {
  import opened Seqs

  /** Number of occurrences of `x` in `s`. */
  function Count<T(==)>(s: seq<T>, x: T): (c: nat)
    ensures c > 0 <==> x in s
    ensures c <= |s|
  {
    if s == [] then 0
    else Count(s[..|s| - 1], x) + (if s[|s| - 1] == x then 1 else 0)
  }

  /** The distinct elements of `s`, each at its first occurrence. */
  function Distinct<T(==)>(s: seq<T>): (r: seq<T>)
    ensures NoDuplicates(r)
    ensures Elems(r) == Elems(s)
  {
    if s == [] then []
    else
      var init := s[..|s| - 1];
      var last := s[|s| - 1];
      assert s == init + [last];
      var r := Distinct(init);
      assert Elems(s) == Elems(init) + {last};
      if last in r then r else r + [last]
  }
}
