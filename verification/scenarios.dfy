/** Worked examples of the pipeline on small corpora. */
module Scenarios {
  import opened Tokenizer
  import opened Scoring
  import opened Query

  lemma TokensOfWords(text: string, seps: seq<string>, toks: seq<string>)
    requires forall i :: 0 <= i < |text| ==> !('A' <= text[i] <= 'Z')
    requires IsSplit(text, seps, toks)
    ensures Tokens(text) == toks
  {
    assert LowerText(text) == text;
    SplitIsScan(text, seps, toks);
  }

  lemma TheCatSplit()
    ensures IsSplit("the cat sat on the mat", ["", " ", " ", " ", " ", " ", ""], ["the", "cat", "sat", "on", "the", "mat"])
  {
    var toks := ["the", "cat", "sat", "on", "the", "mat"];
    var seps := ["", " ", " ", " ", " ", " ", ""];
    TheCatWeave();
    TheCatWords();
    forall i | 0 <= i < |seps| ensures NoLetters(seps[i]) {
      if i == 0 || i == 6 {} else { assert seps[i] == " "; }
    }
  }

  lemma TheCatWeave()
    ensures Weave(["", " ", " ", " ", " ", " ", ""], ["the", "cat", "sat", "on", "the", "mat"]) == "the cat sat on the mat"
  {
    TheCatWeaveTail();
    assert Weave([" ", " ", ""], ["cat", "sat"]) == " cat sat";
    assert "" + "the" + " cat sat" + " on the mat" == "the cat sat on the mat";
  }

  lemma TheCatWeaveTail()
    ensures Weave([" ", " ", " ", " ", " ", ""], ["cat", "sat", "on", "the", "mat"]) == " cat sat" + " on the mat"
  {
    assert Weave([" ", ""], ["mat"]) == " mat";
    assert Weave([" ", " ", ""], ["the", "mat"]) == " the mat";
    assert Weave([" ", " ", " ", ""], ["on", "the", "mat"]) == " on the mat";
  }

  lemma TheCatWords()
    ensures forall t :: t in ["the", "cat", "sat", "on", "the", "mat"] ==> IsWord(t)
  {
    var toks := ["the", "cat", "sat", "on", "the", "mat"];
    forall i | 0 <= i < |toks| ensures IsWord(toks[i]) {
      if i == 0 {} else if i == 1 {} else if i == 2 {} else if i == 3 {} else if i == 4 {} else {}
    }
  }

  lemma TheCatTokens()
    ensures Tokens("the cat sat on the mat") == ["the", "cat", "sat", "on", "the", "mat"]
  {
    TheCatSplit();
    TokensOfWords("the cat sat on the mat", ["", " ", " ", " ", " ", " ", ""], ["the", "cat", "sat", "on", "the", "mat"]);
  }

  /** "the" occurs twice among the six tokens of "the cat sat on the mat". */
  lemma OneDocumentScore()
    ensures TokenTf(Doc("d1.txt", "the cat sat on the mat"), "the") == Ratio(2, 6)
  {
    TheCatTokens();
    assert multiset(["the", "cat", "sat", "on", "the", "mat"])["the"] == 2;
  }

  /** A document without letters makes the division fail, even though a
      later document contains the word. */
  lemma EmptyDocumentFails()
    ensures Run(["whale"], [Doc("d1.txt", ""), Doc("d2.txt", "whale")]) == Failed(DivisionUndefined("d1.txt"))
  {
    var docs := [Doc("d1.txt", ""), Doc("d2.txt", "whale")];
    assert Tokens("") == [];
    RunOutcome(["whale"], docs);
  }

  /** With one query word and documents that all have tokens, the outcome
      is a report, and the word is the only key. */
  lemma OneWordIsReport(w: string, docs: seq<Doc>)
    requires docs != [] && forall k :: 0 <= k < |docs| ==> Tokens(docs[k].text) != []
    ensures Run([w], docs).Report? && Distinct([w]) == [w]
  {
    RunOutcome([w], docs);
    assert Distinct([w]) == [w];
  }

  /** A report of one row whose document is the first best one for `w`. */
  lemma SingleRow(out: Outcome, w: string, docs: seq<Doc>)
    requires out.Report? && |out.rows| == 1 && out.rows[0].word == w
    requires exists k: nat ::
      (FirstBest(docs, w, k) && out.rows[0].doc == docs[k].id && out.rows[0].score == TokenTf(docs[k], w))
    ensures exists k: nat ::
      (FirstBest(docs, w, k) && out == Report([Row(w, docs[k].id, TokenTf(docs[k], w))]))
  {
    var k: nat :| FirstBest(docs, w, k) && out.rows[0].doc == docs[k].id && out.rows[0].score == TokenTf(docs[k], w);
    assert out.rows == [Row(w, docs[k].id, TokenTf(docs[k], w))];
  }

  /** With one query word, the report is a single row: the first document
      with the highest term frequency. */
  lemma OneWordReport(w: string, docs: seq<Doc>)
    requires docs != [] && forall k :: 0 <= k < |docs| ==> Tokens(docs[k].text) != []
    ensures exists k: nat ::
      (FirstBest(docs, w, k) && Run([w], docs) == Report([Row(w, docs[k].id, TokenTf(docs[k], w))]))
  {
    OneWordIsReport(w, docs);
    RunReport([w], docs, 0);
    SingleRow(Run([w], docs), w, docs);
  }

  /** With one query word and two documents, the second document is
      reported only when its term frequency is strictly higher. */
  lemma TwoDocuments(w: string, d0: Doc, d1: Doc)
    requires Tokens(d0.text) != [] && Tokens(d1.text) != []
    ensures Run([w], [d0, d1]) == Report([
      if Below(TokenTf(d0, w), TokenTf(d1, w)) then Row(w, d1.id, TokenTf(d1, w))
      else Row(w, d0.id, TokenTf(d0, w))])
  {
    var docs := [d0, d1];
    OneWordReport(w, docs);
    var k: nat :| FirstBest(docs, w, k) && Run([w], docs) == Report([Row(w, docs[k].id, TokenTf(docs[k], w))]);
    if k == 0 {
      assert AtMost(TokenTf(docs[1], w), TokenTf(docs[0], w));
    } else {
      assert Below(TokenTf(docs[0], w), TokenTf(docs[1], w));
    }
  }

  lemma ThreeAs()
    ensures Tokens("a a a") == ["a", "a", "a"]
  {
    var toks := ["a", "a", "a"];
    assert forall i :: 0 <= i < |toks| ==> toks[i] == "a";
    TokensOfWords("a a a", ["", " ", " ", ""], toks);
  }

  lemma AThenB()
    ensures Tokens("a b") == ["a", "b"]
  {
    TokensOfWords("a b", ["", " ", ""], ["a", "b"]);
  }

  lemma OneLetter(c: char)
    requires 'a' <= c <= 'z'
    ensures Tokens([c]) == [[c]]
  {
    TokensOfWords([c], ["", ""], [[c]]);
  }

  /** "a" has frequency 3/3 in "a a a" and 1/2 in "a b": the first document wins. */
  lemma HigherScoreWins()
    ensures Run(["a"], [Doc("d1.txt", "a a a"), Doc("d2.txt", "a b")]) == Report([Row("a", "d1.txt", Ratio(3, 3))])
  {
    var d0, d1 := Doc("d1.txt", "a a a"), Doc("d2.txt", "a b");
    ThreeAs();
    AThenB();
    assert multiset(["a", "a", "a"])["a"] == 3;
    assert multiset(["a", "b"])["a"] == 1;
    TwoDocuments("a", d0, d1);
  }

  /** A word that occurs nowhere scores 0 everywhere: the tie goes to the
      first document. */
  lemma TieGoesToFirstDocument()
    ensures Run(["missing"], [Doc("d1.txt", "x"), Doc("d2.txt", "y")]) == Report([Row("missing", "d1.txt", Ratio(0, 1))])
  {
    var d0, d1 := Doc("d1.txt", "x"), Doc("d2.txt", "y");
    OneLetter('x');
    OneLetter('y');
    TwoDocuments("missing", d0, d1);
  }
}
