/** The query runner of term_freq_script.py: `import_counts` (lines 62-68)
    builds one Counter per document, `term_frequency` (lines 82-96) fills the
    score table `scores[word][filename]` and `find_highest_tfs_and_print`
    (lines 111-115) picks, for each word, the document with the highest score.

    The documents are handed in as a sequence of (filename, text) pairs in
    the order the directory listing yields them; that one sequence is used
    for every word. Run is the specification of the whole pipeline and
    TermFrequency the loops that compute it. */
module Query {
  import opened Tokenizer
  import opened Frequency
  import opened Scoring
  import opened Selector

  /** A text file: its name and its contents. */
  datatype Doc = Doc(id: string, text: string)

  /** A row of the printed table: word, document, term frequency score. */
  datatype Row = Row(word: string, doc: string, score: Score)

  /** The exceptions the pipeline can raise. */
  datatype Failure =
    | DivisionUndefined(doc: string)  // `Decimal(0) / Decimal(0)` for a document without tokens
    | EmptyMax(word: string)          // `max()` of an empty row: there are no documents

  datatype Outcome =
    | NoWordsSupplied                 // "Please supply a list of words!", nothing is scored
    | Failed(failure: Failure)
    | Report(rows: seq<Row>)

  /** Filenames in one directory are distinct. */
  predicate DistinctIds(docs: seq<Doc>) {
    forall i, j :: 0 <= i < j < |docs| ==> docs[i].id != docs[j].id
  }

  /** `Counter(tokens(f.read()))` for one document. */
  function DocCounter(d: Doc): (c: Counter)
    ensures forall w :: w in c <==> w in Tokens(d.text)
  {
    Count(Tokens(d.text))
  }

  /** The dict `data` of import_counts: one Counter per filename, a later
      document overwriting an earlier one of the same name. */
  function Corpus(docs: seq<Doc>): (data: map<string, Counter>)
    ensures data.Keys == set i | 0 <= i < |docs| :: docs[i].id
    decreases |docs|
  {
    if docs == [] then map[]
    else
      var last := docs[|docs| - 1];
      var before := Corpus(docs[..|docs| - 1]);
      assert forall i :: 0 <= i < |docs| - 1 ==> docs[..|docs| - 1][i] == docs[i];
      before[last.id := DocCounter(last)]
  }

  /** The Counter stored under a filename is that of the last document
      with that name. */
  lemma {:induction false} CorpusLookup(docs: seq<Doc>, i: nat)
    requires i < |docs|
    requires forall j :: i < j < |docs| ==> docs[j].id != docs[i].id
    ensures docs[i].id in Corpus(docs)
    ensures Corpus(docs)[docs[i].id] == DocCounter(docs[i])
    decreases |docs|
  {
    if i < |docs| - 1 {
      var init := docs[..|docs| - 1];
      CorpusLookup(init, i);
    }
  }

  /** `import_counts()`: fills `data` one file at a time. */
  method ImportCounts(docs: seq<Doc>) returns (data: map<string, Counter>)
    ensures data == Corpus(docs)
  {
    data := map[];
    for n := 0 to |docs|
      invariant data == Corpus(docs[..n])
    {
      assert docs[..n + 1][..n] == docs[..n];
      data := data[docs[n].id := DocCounter(docs[n])];
    }
    assert docs[..|docs|] == docs;
  }

  /** A document whose score can be computed: its counts do not sum to 0. */
  ghost predicate Scorable(d: Doc) {
    Total(DocCounter(d)) > 0
  }

  /** `scores[word][filename]`, or None when the division is undefined. */
  ghost function DocScore(d: Doc, w: string): (r: Option<Score>)
    ensures r.None? <==> Tokens(d.text) == []
    ensures r.Some? ==> r.value.den == |Tokens(d.text)|
  {
    CountTotal(Tokens(d.text));
    TfScore(DocCounter(d), w)
  }

  /** The first document whose score cannot be computed, or |docs|. */
  ghost function FirstUnscorable(docs: seq<Doc>): (k: nat)
    ensures k <= |docs|
    ensures forall j :: 0 <= j < k ==> Scorable(docs[j])
    ensures k < |docs| ==> !Scorable(docs[k])
  {
    FirstUnscorableFrom(docs, 0)
  }

  /** The first document at position j or later whose score cannot be
      computed, or |docs|. */
  ghost function FirstUnscorableFrom(docs: seq<Doc>, j: nat): (k: nat)
    requires j <= |docs|
    ensures j <= k <= |docs|
    ensures forall i :: j <= i < k ==> Scorable(docs[i])
    ensures k < |docs| ==> !Scorable(docs[k])
    decreases |docs| - j
  {
    if j == |docs| || !Scorable(docs[j]) then j else FirstUnscorableFrom(docs, j + 1)
  }

  /** The row `scores[word]`: every document with its score, in order. */
  ghost function ItemsFor(w: string, docs: seq<Doc>): (items: seq<Item>)
    requires forall j :: 0 <= j < |docs| ==> Scorable(docs[j])
    ensures |items| == |docs|
  {
    seq(|docs|, j requires 0 <= j < |docs| && Scorable(docs[j]) => Item(docs[j].id, DocScore(docs[j], w).value))
  }

  /** Item j of a word's row is document j's filename with the word's term
      frequency in that document. */
  lemma ItemsForMeaning(w: string, docs: seq<Doc>)
    requires forall j :: 0 <= j < |docs| ==> Scorable(docs[j])
    ensures forall j :: 0 <= j < |docs| ==> Tokens(docs[j].text) != []
    ensures forall j :: 0 <= j < |docs| ==> ItemsFor(w, docs)[j] == Item(docs[j].id, TokenTf(docs[j], w))
  {
    forall j | 0 <= j < |docs|
      ensures Tokens(docs[j].text) != [] && ItemsFor(w, docs)[j] == Item(docs[j].id, TokenTf(docs[j], w))
    {
      DocScoreMeaning(docs[j], w);
    }
  }

  /** The table row printed for a word: the item `max` picks. */
  function Best(w: string, items: seq<Item>): (row: Row)
    requires items != []
    ensures row.word == w && Item(row.doc, row.score) in items
  {
    var best := Highest(items);
    Row(w, best.doc, best.score)
  }

  /** The keys of the dict `scores`: each word once, where it first occurs
      (assigning to an existing key keeps its place in a dict). */
  function Distinct(ws: seq<string>): (keys: seq<string>)
    ensures forall w :: w in keys <==> w in ws
    ensures forall i, j :: 0 <= i < j < |keys| ==> keys[i] != keys[j]
    decreases |ws|
  {
    if ws == [] then []
    else
      var before := Distinct(ws[..|ws| - 1]);
      var w := ws[|ws| - 1];
      assert forall v :: v in ws <==> v in ws[..|ws| - 1] || v == w by {
        assert ws == ws[..|ws| - 1] + [w];
      }
      if w in before then before else before + [w]
  }

  /** The position where w first occurs in ws. */
  function FirstIndex(ws: seq<string>, w: string): (k: nat)
    requires w in ws
    ensures k < |ws| && ws[k] == w
    ensures forall j :: 0 <= j < k ==> ws[j] != w
  {
    if ws[0] == w then 0 else 1 + FirstIndex(ws[1..], w)
  }

  lemma {:induction false} FirstIndexPrefix(ws: seq<string>, n: nat, w: string)
    requires n <= |ws| && w in ws[..n]
    ensures FirstIndex(ws[..n], w) == FirstIndex(ws, w)
  {
    var k := FirstIndex(ws[..n], w);
    var m := FirstIndex(ws, w);
    assert ws[..n][k] == ws[k];
  }

  /** The words come out in the order of their first occurrence. */
  lemma {:induction false} DistinctInFirstOccurrenceOrder(ws: seq<string>)
    ensures forall i, j :: 0 <= i < j < |Distinct(ws)| ==>
      FirstIndex(ws, Distinct(ws)[i]) < FirstIndex(ws, Distinct(ws)[j])
    decreases |ws|
  {
    if ws != [] {
      var n := |ws| - 1;
      var init := ws[..n];
      var keys := Distinct(ws);
      DistinctInFirstOccurrenceOrder(init);
      var before := Distinct(init);
      forall i | 0 <= i < |before|
        ensures FirstIndex(ws, before[i]) == FirstIndex(init, before[i])
        ensures FirstIndex(ws, before[i]) < n
      {
        FirstIndexPrefix(ws, n, before[i]);
      }
      if ws[n] !in before {
        assert ws[n] !in init;
        assert FirstIndex(ws, ws[n]) == n;
      }
    }
  }

  /** The first word of a non-empty word list is the first key. */
  lemma DistinctHead(ws: seq<string>)
    requires ws != []
    ensures Distinct(ws) != [] && Distinct(ws)[0] == ws[0]
  {
    DistinctInFirstOccurrenceOrder(ws);
    var keys := Distinct(ws);
    assert ws[0] in keys;
    var p :| 0 <= p < |keys| && keys[p] == ws[0];
    assert FirstIndex(ws, ws[0]) == 0;
  }

  /** What `term_frequency(words)` amounts to for the documents docs, in the
      order in which the source fails: an empty word list stops before any
      scoring; otherwise the first document without tokens makes the first
      word's division fail; otherwise no documents make `max` fail on the
      first word; otherwise each distinct word gets the first document that
      carries its highest score. */
  ghost function Run(words: seq<string>, docs: seq<Doc>): (out: Outcome)
    ensures out.Report? ==>
      (|out.rows| == |Distinct(words)| &&
       forall i :: 0 <= i < |out.rows| ==> out.rows[i].word == Distinct(words)[i])
  {
    if words == [] then NoWordsSupplied
    else if FirstUnscorable(docs) < |docs| then
      Failed(DivisionUndefined(docs[FirstUnscorable(docs)].id))
    else if docs == [] then Failed(EmptyMax(words[0]))
    else
      var keys := Distinct(words);
      Report(seq(|keys|, i requires 0 <= i < |keys| => Best(keys[i], ItemsFor(keys[i], docs))))
  }

  /** The first key whose row is empty, or |keys|. */
  function FirstEmpty(keys: seq<string>, table: map<string, seq<Item>>): (e: nat)
    requires forall w :: w in keys ==> w in table
    ensures e <= |keys|
    ensures forall i :: 0 <= i < e ==> table[keys[i]] != []
    ensures e < |keys| ==> table[keys[e]] == []
  {
    FirstEmptyFrom(keys, table, 0)
  }

  /** The first key at position j or later whose row is empty, or |keys|. */
  function FirstEmptyFrom(keys: seq<string>, table: map<string, seq<Item>>, j: nat): (e: nat)
    requires forall w :: w in keys ==> w in table
    requires j <= |keys|
    ensures j <= e <= |keys|
    ensures forall i :: j <= i < e ==> table[keys[i]] != []
    ensures e < |keys| ==> table[keys[e]] == []
    decreases |keys| - j
  {
    if j == |keys| || table[keys[j]] == [] then j else FirstEmptyFrom(keys, table, j + 1)
  }

  /** The first empty row is the one after a run of non-empty ones. */
  lemma FirstEmptyAt(keys: seq<string>, table: map<string, seq<Item>>, i: nat)
    requires forall w :: w in keys ==> w in table
    requires i <= |keys|
    requires forall k :: 0 <= k < i ==> table[keys[k]] != []
    requires i < |keys| ==> table[keys[i]] == []
    ensures FirstEmpty(keys, table) == i
  {
  }

  /** `find_highest_tfs_and_print(scores)` without the printing: one row per
      key in key order, or the `max` failure of the first empty row. */
  method FindHighest(keys: seq<string>, table: map<string, seq<Item>>) returns (out: Outcome)
    requires forall w :: w in keys ==> w in table
    ensures FirstEmpty(keys, table) < |keys| ==> out == Failed(EmptyMax(keys[FirstEmpty(keys, table)]))
    ensures FirstEmpty(keys, table) == |keys| ==>
      out.Report? && |out.rows| == |keys| &&
      forall i :: 0 <= i < |keys| ==> out.rows[i] == Best(keys[i], table[keys[i]])
  {
    var rows: seq<Row> := [];
    for i := 0 to |keys|
      invariant |rows| == i
      invariant forall k :: 0 <= k < i ==> table[keys[k]] != [] && rows[k] == Best(keys[k], table[keys[k]])
    {
      var items := table[keys[i]];
      if items == [] {
        FirstEmptyAt(keys, table, i);
        return Failed(EmptyMax(keys[i]));
      }
      rows := rows + [Best(keys[i], items)];
    }
    FirstEmptyAt(keys, table, |keys|);
    return Report(rows);
  }

  /** One more document adds its item to the end of a row. */
  lemma ItemsForExtend(w: string, docs: seq<Doc>, j: nat)
    requires j < |docs|
    requires forall k :: 0 <= k <= j ==> Scorable(docs[k])
    ensures ItemsFor(w, docs[..j + 1]) ==
      ItemsFor(w, docs[..j]) + [Item(docs[j].id, DocScore(docs[j], w).value)]
  {
    assert docs[..j + 1][..j] == docs[..j];
  }

  /** The finished score table when there are no documents: every row is
      empty, so `max` fails on the first word. */
  lemma SelectionWithoutDocs(words: seq<string>, keys: seq<string>, table: map<string, seq<Item>>)
    requires words != []
    requires keys == Distinct(words)
    requires forall w :: w in keys ==> w in table && table[w] == ItemsFor(w, [])
    ensures FirstEmpty(keys, table) == 0 && keys[0] == words[0]
    ensures Run(words, []) == Failed(EmptyMax(keys[0]))
  {
    DistinctHead(words);
  }

  /** When there are documents, every row of the finished table is full. */
  lemma NoEmptyRow(keys: seq<string>, table: map<string, seq<Item>>, docs: seq<Doc>)
    requires docs != [] && FirstUnscorable(docs) == |docs|
    requires forall w :: w in keys ==> w in table && table[w] == ItemsFor(w, docs)
    ensures FirstEmpty(keys, table) == |keys|
  {
    forall i | 0 <= i < |keys|
      ensures table[keys[i]] != []
    {
      assert keys[i] in keys;
      assert |table[keys[i]]| == |docs|;
    }
  }

  /** The finished score table when there are documents: no row is empty,
      and the rows selected from it are Run's report. */
  lemma SelectionIsRun(words: seq<string>, docs: seq<Doc>, keys: seq<string>,
                       table: map<string, seq<Item>>, rows: seq<Row>)
    requires words != [] && docs != [] && FirstUnscorable(docs) == |docs|
    requires keys == Distinct(words)
    requires forall w :: w in keys ==> w in table && table[w] == ItemsFor(w, docs)
    requires |rows| == |keys|
    requires FirstEmpty(keys, table) == |keys| ==>
      forall i :: 0 <= i < |keys| ==> rows[i] == Best(keys[i], table[keys[i]])
    ensures FirstEmpty(keys, table) == |keys|
    ensures Run(words, docs) == Report(rows)
  {
    NoEmptyRow(keys, table, docs);
    var expected := seq(|keys|, i requires 0 <= i < |keys| => Best(keys[i], ItemsFor(keys[i], docs)));
    assert Run(words, docs) == Report(expected);
    assert rows == expected by {
      forall i | 0 <= i < |keys|
        ensures rows[i] == expected[i]
      {
        assert keys[i] in keys;
      }
    }
  }

  /** The inner loop of `term_frequency` for one word: the row
      `scores[word]`, filled document by document. failedAt is the position
      of the document whose division fails, or |docs| when none does. */
  method ScoreWord(word: string, docs: seq<Doc>, counts: map<string, Counter>)
    returns (row: seq<Item>, failedAt: nat)
    requires forall j :: 0 <= j < |docs| ==>
      docs[j].id in counts && counts[docs[j].id] == DocCounter(docs[j])
    ensures failedAt == FirstUnscorable(docs)
    ensures failedAt == |docs| ==> row == ItemsFor(word, docs)
  {
    row := [];
    for j := 0 to |docs|
      invariant j <= FirstUnscorable(docs)
      invariant row == ItemsFor(word, docs[..j])
    {
      var c := counts[docs[j].id];
      var count := Lookup(c, word);
      var total := SumCounts(c);
      if total == 0 {
        return row, j;
      }
      ItemsForExtend(word, docs, j);
      row := row + [Item(docs[j].id, Ratio(count, total))];
    }
    assert docs[..|docs|] == docs;
    failedAt := |docs|;
  }

  /** The outer loop of `term_frequency`: the score table `scores`, a row
      for each word, with its keys in insertion order. failedAt is as in
      ScoreWord; the first word already meets a failing division. */
  method ScoreTable(words: seq<string>, docs: seq<Doc>, counts: map<string, Counter>)
    returns (keys: seq<string>, scores: map<string, seq<Item>>, failedAt: nat)
    requires words != []
    requires forall j :: 0 <= j < |docs| ==>
      docs[j].id in counts && counts[docs[j].id] == DocCounter(docs[j])
    ensures failedAt == FirstUnscorable(docs)
    ensures failedAt == |docs| ==> keys == Distinct(words)
    ensures failedAt == |docs| ==> forall w :: w in scores <==> w in keys
    ensures failedAt == |docs| ==>
      forall w :: w in keys ==> w in scores && scores[w] == ItemsFor(w, docs)
  {
    keys, scores := [], map[];
    for i := 0 to |words|
      invariant keys == Distinct(words[..i])
      invariant forall w :: w in scores <==> w in keys
      invariant i > 0 ==> FirstUnscorable(docs) == |docs|
      invariant forall w :: w in scores ==> scores[w] == ItemsFor(w, docs)
    {
      var word := words[i];
      var row, at := ScoreWord(word, docs, counts);
      if at < |docs| {
        return keys, scores, at;
      }
      assert words[..i + 1][..i] == words[..i];
      if word !in scores {
        keys := keys + [word];
      }
      scores := scores[word := row];
    }
    assert words[..|words|] == words;
    failedAt := |docs|;
  }

  /** With distinct filenames, `data` holds every document's own Counter. */
  lemma CorpusReadsBack(docs: seq<Doc>)
    requires DistinctIds(docs)
    ensures forall j :: 0 <= j < |docs| ==>
      docs[j].id in Corpus(docs) && Corpus(docs)[docs[j].id] == DocCounter(docs[j])
  {
    forall j | 0 <= j < |docs|
      ensures docs[j].id in Corpus(docs) && Corpus(docs)[docs[j].id] == DocCounter(docs[j])
    {
      CorpusLookup(docs, j);
    }
  }

  /** The part of `term_frequency` after the empty-list check: fills the
      score table from the Counters, then selects. */
  method ScoreAndSelect(words: seq<string>, docs: seq<Doc>, counts: map<string, Counter>)
    returns (out: Outcome)
    requires words != []
    requires forall j :: 0 <= j < |docs| ==>
      docs[j].id in counts && counts[docs[j].id] == DocCounter(docs[j])
    ensures out == Run(words, docs)
  {
    var keys, scores, failedAt := ScoreTable(words, docs, counts);
    if failedAt < |docs| {
      return Failed(DivisionUndefined(docs[failedAt].id));
    }
    out := FindHighest(keys, scores);
    if docs == [] {
      SelectionWithoutDocs(words, keys, scores);
    } else {
      SelectionIsRun(words, docs, keys, scores, out.rows);
    }
  }

  /** `term_frequency(words)`: counts every document, fills the score table,
      then selects. */
  method TermFrequency(words: seq<string>, docs: seq<Doc>) returns (out: Outcome)
    requires DistinctIds(docs)
    ensures out == Run(words, docs)
  {
    var counts := ImportCounts(docs);
    if |words| == 0 {
      return NoWordsSupplied;
    }
    CorpusReadsBack(docs);
    out := ScoreAndSelect(words, docs, counts);
  }

  /** The term frequency read straight off the token list: occurrences of
      w over the number of tokens. */
  function TokenTf(d: Doc, w: string): Score
    requires Tokens(d.text) != []
  {
    Ratio(multiset(Tokens(d.text))[w], |Tokens(d.text)|)
  }

  /** A document can be scored exactly when it has a token, that is when its
      lower-cased text holds a letter 'a'..'z'; its score for a word is then
      the word's occurrences over the number of tokens. */
  lemma DocScoreMeaning(d: Doc, w: string)
    ensures Scorable(d) <==> Tokens(d.text) != []
    ensures Tokens(d.text) != [] <==> Letters(LowerText(d.text)) != []
    ensures DocScore(d, w) == if Tokens(d.text) == [] then None else Some(TokenTf(d, w))
  {
    var toks := Tokens(d.text);
    CountTotal(toks);
    CountIsOccurrences(toks, w);
    TokensConcat(d.text);
    if toks != [] {
      assert Concat(toks) == toks[0] + Concat(toks[1..]);
    }
  }

  /** A query word is looked up as given: one that is not a lower-case
      token (an upper-case letter, a digit, the empty word) scores 0 in
      every document that can be scored. */
  lemma NonTokenScoresZero(d: Doc, w: string)
    requires !IsWord(w) && Scorable(d)
    ensures DocScore(d, w).Some? && DocScore(d, w).value.num == 0
  {
    DocScoreMeaning(d, w);
    var toks := Tokens(d.text);
    assert w !in toks;
  }

  /** Which outcome term_frequency has: nothing for an empty word list; the
      division error for the first document without tokens; the `max`
      error when there are no documents; a report otherwise. */
  lemma RunOutcome(words: seq<string>, docs: seq<Doc>)
    ensures Run(words, docs) == NoWordsSupplied <==> words == []
    ensures Run(words, docs).Failed? && Run(words, docs).failure.DivisionUndefined? <==>
      words != [] && exists k :: 0 <= k < |docs| && Tokens(docs[k].text) == []
    ensures Run(words, docs).Failed? && Run(words, docs).failure.DivisionUndefined? ==>
      exists k :: 0 <= k < |docs| && Run(words, docs).failure.doc == docs[k].id &&
        Tokens(docs[k].text) == [] && forall j :: 0 <= j < k ==> Tokens(docs[j].text) != []
    ensures Run(words, docs).Failed? && Run(words, docs).failure.EmptyMax? <==> words != [] && docs == []
    ensures Run(words, docs).Report? <==>
      words != [] && docs != [] && forall k :: 0 <= k < |docs| ==> Tokens(docs[k].text) != []
  {
    forall k | 0 <= k < |docs|
      ensures Scorable(docs[k]) <==> Tokens(docs[k].text) != []
    {
      DocScoreMeaning(docs[k], "");
    }
  }

  /** k is the document reported for w: every document has a token, none
      has a higher term frequency for w than docs[k], and every document
      before it has a strictly lower one. */
  ghost predicate FirstBest(docs: seq<Doc>, w: string, k: nat) {
    && k < |docs|
    && (forall j :: 0 <= j < |docs| ==> Tokens(docs[j].text) != [])
    && (forall j :: 0 <= j < |docs| ==> AtMost(TokenTf(docs[j], w), TokenTf(docs[k], w)))
    && (forall j :: 0 <= j < k ==> Below(TokenTf(docs[j], w), TokenTf(docs[k], w)))
  }

  /** The row `max` yields for a word is the first document with the
      highest term frequency, with that frequency. */
  lemma BestIsFirstBest(w: string, docs: seq<Doc>)
    requires docs != [] && FirstUnscorable(docs) == |docs|
    ensures var row := Best(w, ItemsFor(w, docs));
      row.word == w &&
      exists k: nat :: FirstBest(docs, w, k) && row.doc == docs[k].id && row.score == TokenTf(docs[k], w)
  {
    var items := ItemsFor(w, docs);
    var scores := ScoresOf(items);
    forall j | 0 <= j < |docs|
      ensures Tokens(docs[j].text) != [] && scores[j] == TokenTf(docs[j], w)
    {
      DocScoreMeaning(docs[j], w);
      assert scores[j] == items[j].score == DocScore(docs[j], w).value;
    }
    var k := MaxIndex(scores);
    assert Best(w, items) == Row(w, docs[k].id, scores[k]);
    forall j | 0 <= j < |docs|
      ensures AtMost(TokenTf(docs[j], w), TokenTf(docs[k], w))
    {
      assert AtMost(scores[j], scores[k]);
    }
    forall j | 0 <= j < k
      ensures Below(TokenTf(docs[j], w), TokenTf(docs[k], w))
    {
      assert Below(scores[j], scores[k]);
    }
    assert FirstBest(docs, w, k);
  }

  /** A report has one row per distinct query word, in order of first
      occurrence; row i names the i-th such word, the first document with
      the highest term frequency for it, and that frequency, which lies
      between 0 and 1. */
  lemma RunReport(words: seq<string>, docs: seq<Doc>, i: nat)
    requires Run(words, docs).Report?
    ensures |Run(words, docs).rows| == |Distinct(words)|
    ensures i < |Distinct(words)| ==>
      var row := Run(words, docs).rows[i];
      && row.word == Distinct(words)[i]
      && row.score.num <= row.score.den
      && (exists k: nat :: FirstBest(docs, row.word, k) && row.doc == docs[k].id &&
                      row.score == TokenTf(docs[k], row.word))
  {
    if i < |Distinct(words)| {
      BestIsFirstBest(Distinct(words)[i], docs);
    }
  }
}
