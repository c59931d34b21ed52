/** The selection at term_freq_script.py:114:
    `max(scores[word].items(), key=lambda x: x[1])`.

    Python's `max` walks the items in order and replaces its current best
    only by an item whose key is strictly greater, so it returns the FIRST
    item that carries the maximal score. */
module Selector {
  import opened Scoring

  /** A `(filename, score)` item of a word's row of the score table. */
  datatype Item = Item(doc: string, score: Score)

  /** k is the first position holding a maximal score: every score is at
      most s[k], and every score before k is strictly smaller. */
  predicate IsFirstMax(s: seq<Score>, k: nat) {
    && k < |s|
    && (forall j :: 0 <= j < |s| ==> AtMost(s[j], s[k]))
    && (forall j :: 0 <= j < k ==> Below(s[j], s[k]))
  }

  /** The scan of `max` over the first n scores. */
  function MaxOfPrefix(s: seq<Score>, n: nat): (k: nat)
    requires 0 < n <= |s|
    ensures IsFirstMax(s[..n], k)
    decreases n
  {
    if n == 1 then 0
    else
      var k := MaxOfPrefix(s, n - 1);
      assert forall j :: 0 <= j < n - 1 ==> s[..n - 1][j] == s[j];
      if Below(s[k], s[n - 1]) then
        PassesAll(s, k, n);
        n - 1
      else
        k
  }

  lemma PassesAll(s: seq<Score>, k: nat, n: nat)
    requires 0 < n <= |s| && k < n - 1
    requires forall j :: 0 <= j < n - 1 ==> AtMost(s[j], s[k])
    requires Below(s[k], s[n - 1])
    ensures forall j :: 0 <= j < n - 1 ==> Below(s[j], s[n - 1])
  {
    forall j | 0 <= j < n - 1
      ensures Below(s[j], s[n - 1])
    {
      AtMostBelow(s[j], s[k], s[n - 1]);
    }
  }

  /** The position `max` picks among the scores. */
  function MaxIndex(s: seq<Score>): (k: nat)
    requires |s| > 0
    ensures IsFirstMax(s, k)
  {
    assert s[..|s|] == s;
    MaxOfPrefix(s, |s|)
  }

  /** At most one position is the first maximal one, so the choice does not
      depend on anything but the scores and their order. */
  lemma FirstMaxUnique(s: seq<Score>, i: nat, k: nat)
    requires IsFirstMax(s, i) && IsFirstMax(s, k)
    ensures i == k
  {
    // whichever comes first is strictly below the other, which is maximal
    assert AtMost(s[i], s[k]) && AtMost(s[k], s[i]);
  }

  /** The key column `x[1]` of the items. */
  function ScoresOf(items: seq<Item>): (s: seq<Score>)
    ensures |s| == |items|
    ensures forall j :: 0 <= j < |items| ==> s[j] == items[j].score
  {
    seq(|items|, j requires 0 <= j < |items| => items[j].score)
  }

  /** `max(items, key=score)`: one of the items, namely the first one whose
      score is maximal (HighestIsFirstMax). */
  function Highest(items: seq<Item>): (best: Item)
    requires |items| > 0
    ensures best in items
  {
    items[MaxIndex(ScoresOf(items))]
  }

  /** The item `max` returns is the first one carrying the maximal score. */
  lemma HighestIsFirstMax(items: seq<Item>)
    requires |items| > 0
    ensures exists k: nat :: IsFirstMax(ScoresOf(items), k) && Highest(items) == items[k]
  {
    var k := MaxIndex(ScoresOf(items));
    assert IsFirstMax(ScoresOf(items), k) && Highest(items) == items[k];
  }
}
