/** The word counts of term_freq_script.py: `Counter(tokens(...))` at line 66,
    read back with `counts[filename][word]` (a missing key reads as 0) at
    line 92 and summed with `sum(counts[filename].values())` at line 93. */
module Frequency {

  /** A `collections.Counter` of words: each word that occurs, with its count. */
  type Counter = map<string, nat>

  /** `c[w]` on a Counter: the count of w, or 0 when w is not a key. */
  function Lookup(c: Counter, w: string): (n: nat)
    ensures w !in c ==> n == 0
    ensures w in c ==> n == c[w]
  {
    if w in c then c[w] else 0
  }

  /** `Counter(toks)`: counts the tokens one after another. Its keys are
      exactly the tokens that occur, and every stored count is positive. */
  function Count(toks: seq<string>): (c: Counter)
    ensures forall w :: w in c <==> w in toks
    ensures forall w :: w in c ==> c[w] > 0
    decreases |toks|
  {
    if toks == [] then map[]
    else
      var before := Count(toks[..|toks| - 1]);
      var w := toks[|toks| - 1];
      before[w := Lookup(before, w) + 1]
  }

  /** `sum(c.values())`: the sum of all counts, in no particular order. */
  ghost function Total(c: Counter): (t: nat)
    ensures t == 0 <==> forall w :: w in c ==> c[w] == 0
    decreases |c|
  {
    if c == map[] then 0
    else
      var w :| w in c;
      var rest := c - {w};
      assert forall v :: v in c ==> v == w || v in rest;
      c[w] + Total(rest)
  }

  /** The sum does not depend on which key is taken out first. */
  lemma {:induction false} TotalRemove(c: Counter, w: string)
    requires w in c
    ensures Total(c) == c[w] + Total(c - {w})
    decreases |c|
  {
    var v :| v in c && Total(c) == c[v] + Total(c - {v});
    if v != w {
      TotalRemove(c - {v}, w);
      TotalRemove(c - {w}, v);
      assert c - {v} - {w} == c - {w} - {v};
    }
  }

  /** One more occurrence of w adds one to the sum. */
  lemma TotalIncrement(c: Counter, w: string)
    ensures Total(c[w := Lookup(c, w) + 1]) == Total(c) + 1
  {
    var c' := c[w := Lookup(c, w) + 1];
    TotalRemove(c', w);
    if w in c {
      TotalRemove(c, w);
      assert c' - {w} == c - {w};
    } else {
      assert c' - {w} == c;
    }
  }

  /** The count of a word is its number of occurrences among the tokens;
      a word that never occurs reads as 0. */
  lemma {:induction false} CountIsOccurrences(toks: seq<string>, w: string)
    ensures Lookup(Count(toks), w) == multiset(toks)[w]
    decreases |toks|
  {
    if toks != [] {
      var init := toks[..|toks| - 1];
      CountIsOccurrences(init, w);
      assert toks == init + [toks[|toks| - 1]];
    }
  }

  /** The counts add up to the number of tokens. */
  lemma {:induction false} CountTotal(toks: seq<string>)
    ensures Total(Count(toks)) == |toks|
    decreases |toks|
  {
    if toks != [] {
      var init, w := toks[..|toks| - 1], toks[|toks| - 1];
      var before := Count(init);
      assert Count(toks) == before[w := Lookup(before, w) + 1];
      TotalIncrement(before, w);
      CountTotal(init);
    }
  }

  /** No single count exceeds the sum of all counts. */
  lemma LookupAtMostTotal(c: Counter, w: string)
    ensures Lookup(c, w) <= Total(c)
  {
    if w in c {
      TotalRemove(c, w);
    }
  }

  /** `sum(c.values())`, computed by taking the keys out one at a time. */
  method SumCounts(c: Counter) returns (total: nat)
    ensures total == Total(c)
  {
    total := 0;
    var rest := c;
    while rest != map[]
      invariant total + Total(rest) == Total(c)
      decreases |rest|
    {
      var w :| w in rest;
      TotalRemove(rest, w);
      total := total + rest[w];
      rest := rest - {w};
    }
  }
}
