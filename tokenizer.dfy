/**
 * The tokenizer shared by both engine versions: every character that is a
 * letter or digit is lower-cased, every other character becomes a space,
 * and the result is split on runs of spaces.  Only ASCII letters and digits
 * are treated as alphanumeric.
 */
module Tokenizer {

  type Term = string

  predicate IsUpper(c: char)
  {
    'A' <= c <= 'Z'
  }

  predicate IsAlnum(c: char)
  {
    'a' <= c <= 'z' || IsUpper(c) || '0' <= c <= '9'
  }

  function Lower(c: char): char
  {
    if IsUpper(c) then (c as int + 32) as char else c
  }

  /** A character that can occur in a term: a lower-case letter or a digit. */
  predicate IsTermChar(c: char)
  {
    'a' <= c <= 'z' || '0' <= c <= '9'
  }

  /** A normalised term: non-empty, lower-case letters and digits only. */
  predicate IsTerm(w: string)
  {
    w != [] && forall i :: 0 <= i < |w| ==> IsTermChar(w[i])
  }

  function CleanChar(c: char): char
  {
    if IsAlnum(c) then Lower(c) else ' '
  }

  /** The `clean` string: each character lower-cased or replaced by a space. */
  function Clean(text: string): (r: string)
    ensures |r| == |text|
  {
    if text == [] then [] else [CleanChar(text[0])] + Clean(text[1..])
  }

  /** `cur` as a one-word list, or no word when `cur` is empty. */
  function Word(cur: string): seq<string>
  {
    if cur == [] then [] else [cur]
  }

  /**
   * Splitting on runs of spaces, with `cur` the part of a word already read;
   * no empty word is ever produced.
   */
  function SplitFrom(s: string, cur: string): seq<string>
    decreases |s|
  {
    if s == [] then Word(cur)
    else if s[0] == ' ' then Word(cur) + SplitFrom(s[1..], [])
    else SplitFrom(s[1..], cur + [s[0]])
  }

  function Split(s: string): seq<string>
  {
    SplitFrom(s, [])
  }

  /** The term list of a text, in order of occurrence. */
  function Tokenize(text: string): (ts: seq<Term>)
    ensures forall i :: 0 <= i < |ts| ==> IsTerm(ts[i])
  {
    CleanIsTermOrSpace(text);
    SplitFromTerms(Clean(text), []);
    Split(Clean(text))
  }

  lemma {:induction false} CleanIsTermOrSpace(text: string)
    ensures forall i :: 0 <= i < |Clean(text)| ==> IsTermChar(Clean(text)[i]) || Clean(text)[i] == ' '
  {
    if text != [] {
      CleanIsTermOrSpace(text[1..]);
    }
  }

  lemma {:induction false} SplitFromTerms(s: string, cur: string)
    requires forall i :: 0 <= i < |s| ==> IsTermChar(s[i]) || s[i] == ' '
    requires forall i :: 0 <= i < |cur| ==> IsTermChar(cur[i])
    ensures forall i :: 0 <= i < |SplitFrom(s, cur)| ==> IsTerm(SplitFrom(s, cur)[i])
    decreases |s|
  {
    if s == [] {
    } else if s[0] == ' ' {
      SplitFromTerms(s[1..], []);
    } else {
      SplitFromTerms(s[1..], cur + [s[0]]);
    }
  }

  /** The tokenizer gives no term exactly when the text has no letter or digit. */
  lemma {:induction false} TokenizeEmptyIff(text: string)
    ensures Tokenize(text) == [] <==> forall i :: 0 <= i < |text| ==> !IsAlnum(text[i])
  {
    SplitFromEmptyIff(Clean(text), []);
    forall i | 0 <= i < |text| ensures Clean(text)[i] == ' ' <==> !IsAlnum(text[i]) {
      CleanAt(text, i);
    }
  }

  /** `Clean` works character by character. */
  lemma {:induction false} CleanAt(text: string, i: nat)
    requires i < |text|
    ensures Clean(text)[i] == CleanChar(text[i])
  {
    if i > 0 {
      CleanAt(text[1..], i - 1);
    }
  }

  lemma {:induction false} SplitFromEmptyIff(s: string, cur: string)
    ensures SplitFrom(s, cur) == [] <==> cur == [] && forall i :: 0 <= i < |s| ==> s[i] == ' '
    decreases |s|
  {
    if s == [] {
    } else if s[0] == ' ' {
      SplitFromEmptyIff(s[1..], []);
      assert forall i :: 1 <= i < |s| ==> s[1..][i - 1] == s[i];
    } else {
      SplitFromEmptyIff(s[1..], cur + [s[0]]);
    }
  }

  /** A non-alphanumeric character separates: the terms on either side are kept apart. */
  lemma TokenizeSeparator(a: string, p: char, b: string)
    requires !IsAlnum(p)
    ensures Tokenize(a + [p] + b) == Tokenize(a) + Tokenize(b)
  {
    CleanAppend(a, [p] + b);
    CleanAppend([p], b);
    assert a + [p] + b == a + ([p] + b);
    assert Clean(a + [p] + b) == Clean(a) + [' '] + Clean(b);
    SplitAtSpace(Clean(a), Clean(b), []);
  }

  lemma {:induction false} CleanAppend(a: string, b: string)
    ensures Clean(a + b) == Clean(a) + Clean(b)
  {
    if a != [] {
      assert (a + b)[1..] == a[1..] + b;
      CleanAppend(a[1..], b);
    } else {
      assert a + b == b;
    }
  }

  lemma {:induction false} SplitAtSpace(x: string, y: string, cur: string)
    ensures SplitFrom(x + [' '] + y, cur) == SplitFrom(x, cur) + SplitFrom(y, [])
    decreases |x|
  {
    if x == [] {
      assert x + [' '] + y == [' '] + y;
      assert ([' '] + y)[1..] == y;
    } else {
      assert (x + [' '] + y)[1..] == x[1..] + [' '] + y;
      if x[0] == ' ' {
        SplitAtSpace(x[1..], y, []);
      } else {
        SplitAtSpace(x[1..], y, cur + [x[0]]);
      }
    }
  }

  /** A normalised term tokenizes to itself. */
  lemma TokenizeTerm(w: string)
    requires IsTerm(w)
    ensures Tokenize(w) == [w]
  {
    CleanTerm(w);
    SplitFromWord(w, []);
    assert [] + w == w;
  }

  lemma {:induction false} CleanTerm(w: string)
    requires forall i :: 0 <= i < |w| ==> IsTermChar(w[i])
    ensures Clean(w) == w
  {
    if w != [] {
      CleanTerm(w[1..]);
      assert [w[0]] + w[1..] == w;
    }
  }

  lemma {:induction false} SplitFromWord(w: string, cur: string)
    requires forall i :: 0 <= i < |w| ==> w[i] != ' '
    requires cur + w != []
    ensures SplitFrom(w, cur) == [cur + w]
    decreases |w|
  {
    if w == [] {
      assert cur + w == cur;
    } else {
      assert cur + [w[0]] + w[1..] == cur + w;
      SplitFromWord(w[1..], cur + [w[0]]);
    }
  }

  /** The terms joined with single spaces. */
  function Join(ws: seq<string>): string
  {
    if ws == [] then []
    else if |ws| == 1 then ws[0]
    else ws[0] + [' '] + Join(ws[1..])
  }

  /** Round trip: joining normalised terms and tokenizing gives the terms back. */
  lemma {:induction false} TokenizeJoin(ws: seq<string>)
    requires forall i :: 0 <= i < |ws| ==> IsTerm(ws[i])
    ensures Tokenize(Join(ws)) == ws
  {
    if ws == [] {
      TokenizeEmptyIff([]);
    } else if |ws| == 1 {
      TokenizeTerm(ws[0]);
    } else {
      TokenizeSeparator(ws[0], ' ', Join(ws[1..]));
      TokenizeTerm(ws[0]);
      TokenizeJoin(ws[1..]);
      assert [ws[0]] + ws[1..] == ws;
    }
  }

  function LowerAll(text: string): (r: string)
    ensures |r| == |text|
  {
    if text == [] then [] else [Lower(text[0])] + LowerAll(text[1..])
  }

  /** Matching is case-insensitive: lower-casing the text first changes no term. */
  lemma {:induction false} TokenizeIgnoresCase(text: string)
    ensures Tokenize(LowerAll(text)) == Tokenize(text)
  {
    CleanLowerAll(text);
  }

  lemma {:induction false} CleanLowerAll(text: string)
    ensures Clean(LowerAll(text)) == Clean(text)
  {
    if text != [] {
      CleanLowerAll(text[1..]);
    }
  }

  /** "CATS!" and "cats" both give the single term "cats". */
  lemma TokenizeCatsExample()
    ensures Tokenize("CATS!") == Tokenize("cats") == ["cats"]
  {
    TokenizeTerm("cats");
    assert "CATS!" == "CATS" + ['!'] + [];
    TokenizeSeparator("CATS", '!', []);
    TokenizeEmptyIff([]);
    assert LowerAll("CATS") == "cats";
    TokenizeIgnoresCase("CATS");
  }
}
