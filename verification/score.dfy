/** The TF score of term_freq_script.py:92-94:
    `Decimal(counts[filename][word]) / Decimal(sum(counts[filename].values()))`.

    A score is kept as the exact fraction count/total and two scores are
    compared by cross-multiplication, which is what comparing the exact
    quotients means. The `Decimal` context rounds quotients to 8 significant
    digits; that rounding is not modelled. */
module Scoring {
  import opened Frequency

  datatype Ratio = Ratio(num: nat, den: nat)

  /** A score: the fraction num/den with a positive denominator. */
  type Score = r: Ratio | r.den > 0 witness Ratio(0, 1)

  /** a <= b as fractions (the quotients are compared in QuotientOrder).
      Any two scores are comparable: a <= b exactly when not b < a. */
  predicate AtMost(a: Score, b: Score): (r: bool)
    ensures r <==> !Below(b, a)
  {
    a.num * b.den <= b.num * a.den
  }

  /** a < b as fractions; only a positive score can lie above another. */
  predicate Below(a: Score, b: Score): (r: bool)
    ensures r ==> b.num > 0
  {
    a.num * b.den < b.num * a.den
  }

  /** The score of a word in a document with counts c. The division has no
      guard: for a document without tokens it is `Decimal(0) / Decimal(0)`,
      which raises, and the result is None. Otherwise the score is a
      fraction between 0 and 1, and 0 exactly when the word is absent. */
  ghost function TfScore(c: Counter, w: string): (r: Option<Score>)
    ensures r.None? <==> Total(c) == 0
    ensures r.Some? ==> r.value.num <= r.value.den
    ensures r.Some? ==> (r.value.num == 0 <==> Lookup(c, w) == 0)
  {
    LookupAtMostTotal(c, w);
    if Total(c) == 0 then None else Some(Ratio(Lookup(c, w), Total(c)))
  }

  datatype Option<+T> = None | Some(value: T)

  /** Cross-multiplying compares the exact quotients num/den. */
  lemma QuotientOrder(a: Score, b: Score)
    ensures AtMost(a, b) <==> a.num as real / a.den as real <= b.num as real / b.den as real
    ensures Below(a, b) <==> a.num as real / a.den as real < b.num as real / b.den as real
  {
    var x, xd, y, yd := a.num as real, a.den as real, b.num as real, b.den as real;
    var p, q := x / xd, y / yd;
    var d := xd * yd;
    assert d > 0.0;
    assert p * d == x * yd;
    assert q * d == y * xd;
    assert (a.num * b.den) as real == x * yd;
    assert (b.num * a.den) as real == y * xd;
  }

  /** a <= b and b < c give a < c: the comparison is transitive. */
  lemma AtMostBelow(a: Score, b: Score, c: Score)
    requires AtMost(a, b) && Below(b, c)
    ensures Below(a, c)
  {
  }

  /** `<=` between scores is transitive. */
  lemma AtMostTransitive(a: Score, b: Score, c: Score)
    requires AtMost(a, b) && AtMost(b, c)
    ensures AtMost(a, c)
  {
  }
}
