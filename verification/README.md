# Term frequency of query words, modelled in Dafny

`term_freq_script.py` takes a list of query words and the `.txt` files of the
current directory. It reports, for each word, the document in which that word
has the highest term frequency (TF), together with that score. The TF of word
w in document d is the number of occurrences of w among d's tokens divided by
the number of d's tokens.

This project models the computational core of the script:

- `tokenizer.dfy` (module `Tokenizer`): `tokens(text)`, which is
  `re.findall('[a-z]+', text.lower())`. It is written as an explicit scanner
  (`Scan`). A separate, declarative description of a tokenization (`IsSplit`:
  letter-free separators alternating with maximal runs of `a`..`z`) is proved
  to have exactly one solution, and that solution is the scanner's output.
- `counter.dfy` (module `Frequency`): the `Counter` of a token list, the
  lookup that reads a missing word as 0, and `sum(counter.values())`.
- `score.dfy` (module `Scoring`): the TF score `count / total` as an exact
  fraction, compared by cross-multiplication. The division of a document
  without tokens is `Decimal(0) / Decimal(0)`, which raises.
- `selector.dfy` (module `Selector`): `max(items, key=score)`, which returns
  the first item whose score is maximal.
- `query.dfy` (module `Query`): `import_counts`, `term_frequency` and
  `find_highest_tfs_and_print` (without the printing). The documents are
  passed in as a sequence of (filename, text) pairs in directory-listing
  order. `Run` is the specification of the whole pipeline: either no output
  for an empty word list, or the exception raised, or the table rows.
  `TermFrequency` and the methods it calls are the loops of the script, and
  they are proved to compute `Run`.
- `scenarios.dfy` (module `Scenarios`): worked examples on small corpora.

Behaviour of the script worth knowing, all of which the model keeps:

- An empty word list prints a message and returns without scoring anything
  (lines 84-86).
- A document with no tokens has a word total of 0. Its division
  `Decimal(0) / Decimal(0)` raises, so the whole run fails on the first such
  document (lines 93-94).
- With no documents every row is empty, and `max` of an empty sequence raises
  (line 114).
- `max` keeps the first of several equal scores, so a tie goes to the
  document listed first (line 114).
- Query words are looked up as given, without lower-casing (line 92). A word
  holding an upper-case letter therefore scores 0 everywhere.

## Model

| member | source | states |
|---|---|---|
| Tokenizer.Lower | term_freq_script.py:34 | a capital becomes the small letter at the same place in the alphabet, every other character is kept, no capital is left, and the result is a letter `a`..`z` exactly for `a`..`z` and `A`..`Z` |
| Tokenizer.LowerText | term_freq_script.py:34 | ASCII lower-casing of the text: position by position, a capital becomes the small letter at the same place in the alphabet and every other character is kept; so the length is kept, no capital is left, and a letter stands exactly where the text had a letter or a capital |
| Tokenizer.LowerTextIdempotent | term_freq_script.py:34 | lower-casing twice is the same as lower-casing once |
| Tokenizer.RunLength | term_freq_script.py:34 | the length of the maximal letter run at the front: every character before it is a letter, and the one at it is not |
| Tokenizer.Scan | term_freq_script.py:34 | every token the scanner yields is a non-empty run of `a`..`z` |
| Tokenizer.Tokens | term_freq_script.py:23-34 | every token of `tokens(text)` is a non-empty run of `a`..`z` |
| Tokenizer.ScanIsSplit | term_freq_script.py:34 | the scanner's tokens, with suitable letter-free separators, rebuild the text exactly, and inner separators are non-empty |
| Tokenizer.SplitIsScan | term_freq_script.py:34 | any such cut of a text into separators and words has exactly the scanner's words, so the tokenization is unique |
| Tokenizer.TokensCharacterized | term_freq_script.py:23-34 | `tokens(text) == toks` if and only if the lower-cased text is cut into exactly the words toks by letter-free separators |
| Tokenizer.SplitConsSeparator | term_freq_script.py:34 | a leading non-letter joins the first separator of a cut |
| Tokenizer.SplitConsWord | term_freq_script.py:34 | a leading word followed by a non-letter becomes the first word of a cut |
| Tokenizer.DocExampleSplit | term_freq_script.py:28-29 | the lower-cased docstring example is cut into its five words |
| Tokenizer.DocExampleWeave | term_freq_script.py:28-29 | the five words and their separators rebuild the lower-cased docstring example |
| Tokenizer.DocExampleWeaveTail | term_freq_script.py:28-29 | the same for the example after its first word |
| Tokenizer.DocExampleWeaveEnd | term_freq_script.py:28-29 | the same for the example after its second word |
| Tokenizer.DocExampleWords | term_freq_script.py:28-29 | each of the example's five words is a run of `a`..`z` |
| Tokenizer.DocExampleSeparators | term_freq_script.py:28-29 | none of the example's separators holds a letter |
| Tokenizer.DocExampleLowered | term_freq_script.py:28-34 | lower-casing the docstring example turns only its capitals into letters |
| Tokenizer.RunLengthOfWord | term_freq_script.py:34 | a letter run followed by a non-letter is matched in full |
| Tokenizer.LettersAppend | term_freq_script.py:34 | dropping non-letters distributes over concatenation |
| Tokenizer.LettersOfRun | term_freq_script.py:34 | dropping non-letters keeps a letter run unchanged |
| Tokenizer.ScanConcat | term_freq_script.py:34 | the scanned tokens glued together are the letters of the text in order |
| Tokenizer.TokensConcat | term_freq_script.py:23-34 | no letter is lost or added: the tokens glued together are exactly the letters of the lower-cased text |
| Tokenizer.JoinWordsChars | term_freq_script.py:34 | words joined by spaces consist of letters `a`..`z` and spaces only |
| Tokenizer.ScanJoinWords | term_freq_script.py:34 | scanning words joined by spaces gives the words back |
| Tokenizer.TokensIdempotent | term_freq_script.py:23-34 | tokenizing the space-joined tokens of a text gives the same tokens |
| Tokenizer.TokensDocExample | term_freq_script.py:28-29 | `tokens("Hello! This is a sentence.")` is `['hello', 'this', 'is', 'a', 'sentence']` |
| Frequency.Lookup | term_freq_script.py:92 | `counts[filename][word]` reads the stored count for a key, and 0 for a word that is not a key |
| Frequency.Total | term_freq_script.py:93 | `sum(counts[filename].values())` is 0 exactly when every stored count is 0 |
| Frequency.Count | term_freq_script.py:66 | the Counter's keys are exactly the tokens that occur, and every stored count is positive |
| Frequency.CountIsOccurrences | term_freq_script.py:66-92 | `counts[word]` is the number of occurrences of the word among the tokens, and 0 for an absent word |
| Frequency.CountTotal | term_freq_script.py:66-93 | the counts of a document add up to its number of tokens |
| Frequency.TotalRemove | term_freq_script.py:93 | the sum of the counts does not depend on which key is taken first |
| Frequency.TotalIncrement | term_freq_script.py:93 | one more occurrence of a word adds one to the sum |
| Frequency.LookupAtMostTotal | term_freq_script.py:92-93 | no single count exceeds the sum of all counts |
| Frequency.SumCounts | term_freq_script.py:93 | the loop's result is the sum of all counts |
| Scoring.TfScore | term_freq_script.py:92-94 | the division fails exactly when the sum is 0; otherwise the score lies between 0 and 1 and is 0 exactly when the word is absent |
| Scoring.AtMost | term_freq_script.py:114 | `<=` between scores by cross-multiplication, used to state what `max` returns (its result is at least every score); any two scores are comparable, since a <= b exactly when not b < a |
| Scoring.Below | term_freq_script.py:114 | `<` between scores by cross-multiplication: the only test `max` makes, replacing its best by a new item whose key is strictly greater; only a positive score can lie above another |
| Scoring.QuotientOrder | term_freq_script.py:94-114 | cross-multiplied `<=` and `<` agree with `<=` and `<` on the exact quotients num/den |
| Scoring.AtMostBelow | term_freq_script.py:114 | the score comparison is transitive from `<=` and `<` to `<` |
| Scoring.AtMostTransitive | term_freq_script.py:114 | `<=` between scores is transitive |
| Selector.MaxOfPrefix | term_freq_script.py:114 | scanning a prefix yields its first maximal position |
| Selector.PassesAll | term_freq_script.py:114 | an item beating the current best beats everything seen before |
| Selector.MaxIndex | term_freq_script.py:114 | the selected position is maximal, and every earlier score is strictly smaller |
| Selector.FirstMaxUnique | term_freq_script.py:114 | only one position can be the first maximal one |
| Selector.ScoresOf | term_freq_script.py:114 | the key column `x[1]` of the items: score j is item j's score |
| Selector.Highest | term_freq_script.py:114 | `max` returns one of the items |
| Selector.HighestIsFirstMax | term_freq_script.py:114 | `max` returns the first item whose score is maximal |
| Query.DocCounter | term_freq_script.py:66 | `Counter(tokens(text))` of one document has exactly the document's tokens as keys |
| Query.DocScore | term_freq_script.py:92-94 | a document's score is undefined exactly when it has no tokens, and otherwise has the token count as denominator |
| Query.Best | term_freq_script.py:114-115 | the printed row carries the query word and the filename and score of one of the row's items |
| Query.Run | term_freq_script.py:82-115 | the specified outcome of `term_frequency`; a report has one row per distinct query word, naming that word |
| Query.Corpus | term_freq_script.py:62-68 | `data` has a key for each filename, and no other keys |
| Query.CorpusLookup | term_freq_script.py:64-66 | the Counter under a filename is that of the last document with that name |
| Query.CorpusReadsBack | term_freq_script.py:62-68 | with distinct filenames, `data[filename]` is that document's Counter |
| Query.ImportCounts | term_freq_script.py:62-68 | the loop builds `data` as Corpus describes |
| Query.FirstUnscorable | term_freq_script.py:90-94 | every document before the result can be scored, and the one at the result cannot |
| Query.FirstUnscorableFrom | term_freq_script.py:90-94 | the same, from a given position on |
| Query.ItemsFor | term_freq_script.py:90-94 | a word's row has one item per document, in listing order; ItemsForMeaning gives each item's filename and score |
| Query.ItemsForMeaning | term_freq_script.py:90-94 | item j of a word's row is document j's filename with the word's term frequency there (occurrences over token count) |
| Query.Distinct | term_freq_script.py:88-89 | the keys of `scores` are exactly the query words, each once |
| Query.FirstIndex | term_freq_script.py:88-89 | the first position of a word holds it, and no earlier one does |
| Query.FirstIndexPrefix | term_freq_script.py:88-89 | a word's first position is the same in any prefix containing it |
| Query.DistinctInFirstOccurrenceOrder | term_freq_script.py:88-89 | the keys of `scores` come in the order of the words' first occurrences |
| Query.DistinctHead | term_freq_script.py:88-89 | the first query word is the first key |
| Query.FirstEmpty | term_freq_script.py:112-114 | every row before the result is non-empty, and the one at the result is empty |
| Query.FirstEmptyFrom | term_freq_script.py:112-114 | the same, from a given position on |
| Query.FirstEmptyAt | term_freq_script.py:112-114 | the first empty row is the one that ends a run of non-empty rows |
| Query.FindHighest | term_freq_script.py:111-115 | `max` fails on the first empty row; otherwise there is one row per key, in key order, holding `max` of that row |
| Query.ItemsForExtend | term_freq_script.py:90-94 | one more document appends its item to the end of a row |
| Query.SelectionWithoutDocs | term_freq_script.py:112-114 | without documents, `max` fails on the first query word |
| Query.NoEmptyRow | term_freq_script.py:112-114 | when there are documents, no row of the finished table is empty, so `max` does not fail |
| Query.SelectionIsRun | term_freq_script.py:96-115 | with documents, no row is empty, and the selected rows are the specification's report |
| Query.ScoreWord | term_freq_script.py:90-94 | the inner loop fails at the first document without tokens; otherwise it yields the word's full row |
| Query.ScoreTable | term_freq_script.py:88-94 | the outer loop fails at that same document; otherwise its keys are the distinct words in first-occurrence order, each with its full row; the keys of `scores` are exactly those words |
| Query.ScoreAndSelect | term_freq_script.py:88-96 | scoring then selecting gives the specified outcome |
| Query.TermFrequency | term_freq_script.py:82-96 | `term_frequency(words)` has exactly the outcome that Run specifies |
| Query.DocScoreMeaning | term_freq_script.py:92-94 | a document can be scored exactly when it has a token, that is, when its lower-cased text holds a letter; its score is then occurrences over token count |
| Query.NonTokenScoresZero | term_freq_script.py:92-94 | a query word that is not a lower-case token scores 0 in every document that can be scored |
| Query.RunOutcome | term_freq_script.py:82-114 | an iff for each outcome: nothing exactly for an empty word list; the division error exactly when some document has no tokens, naming the first such document; the `max` error exactly when there are no documents; a report otherwise |
| Query.BestIsFirstBest | term_freq_script.py:112-115 | the row printed for a word names the first document with the highest TF, together with that TF |
| Query.RunReport | term_freq_script.py:88-115 | a report has one row per distinct word, in first-occurrence order; each row holds the first document with the highest TF for that word, and a score between 0 and 1 |
| Scenarios.TokensOfWords | term_freq_script.py:34 | a text without capitals that is cut into words tokenizes to those words |
| Scenarios.TheCatSplit | term_freq_script.py:34 | "the cat sat on the mat" is cut into its six words by spaces |
| Scenarios.TheCatWeave | term_freq_script.py:34 | the six words and their space separators rebuild "the cat sat on the mat" |
| Scenarios.TheCatWeaveTail | term_freq_script.py:34 | the same for the sentence after its first word |
| Scenarios.TheCatWords | term_freq_script.py:34 | each of the six words is a run of `a`..`z` |
| Scenarios.TheCatTokens | term_freq_script.py:34 | "the cat sat on the mat" tokenizes to its six words |
| Scenarios.OneDocumentScore | term_freq_script.py:92-94 | "the" has TF 2/6 in "the cat sat on the mat" |
| Scenarios.EmptyDocumentFails | term_freq_script.py:92-94 | an empty first document makes the run fail on it, even though a later document contains the word |
| Scenarios.OneWordIsReport | term_freq_script.py:82-115 | one query word over documents that all have tokens gives a report, not a failure |
| Scenarios.SingleRow | term_freq_script.py:111-115 | a one-row report naming a first best document is that single row |
| Scenarios.OneWordReport | term_freq_script.py:111-115 | one query word gives a single row, naming the first document with the highest TF |
| Scenarios.TwoDocuments | term_freq_script.py:114 | with two documents, the second is reported only when its TF is strictly higher |
| Scenarios.ThreeAs | term_freq_script.py:34 | "a a a" tokenizes to three "a" |
| Scenarios.AThenB | term_freq_script.py:34 | "a b" tokenizes to "a", "b" |
| Scenarios.OneLetter | term_freq_script.py:34 | a single letter is a single token |
| Scenarios.HigherScoreWins | term_freq_script.py:114 | "a" in ["a a a", "a b"] is reported for the first document, with 3/3 |
| Scenarios.TieGoesToFirstDocument | term_freq_script.py:114 | a word found nowhere is reported for the first document, with score 0 |

## Left out

- File discovery (`text_files_in_cwd`, lines 37-46) and file reading (lines 63-66) are not modelled. The documents are a parameter, in listing order.
- The per-word re-listing of the directory at line 90 is not modelled. The model assumes every listing yields the same documents in the same order.
- Query.TermFrequency: requires distinct filenames, which holds for the files of one directory. `import_counts` itself is modelled for any names, with the last one winning.
- `PrettyTable` and `print` (lines 85, 111, 115-117) and `main` (lines 120-125) are not modelled. The printed table is the sequence of rows, and the message for an empty word list is the outcome NoWordsSupplied.
- Scoring.TfScore: keeps the exact fraction. `Decimal` rounds quotients to 8 significant digits (line 9), so two scores that differ only beyond the 8th digit compare equal in the script but not in the model. In such a case the script may report an earlier document.
- Tokenizer.LowerText: lower-cases character by character and keeps the length. Python's `str.lower` can lengthen a string (U+0130 becomes two code points), which the model does not capture.
- Tokenizer.Lower: folds ASCII capitals only. Python's `str.lower` also folds other Unicode characters, some of them to `a`..`z` (for example KELVIN SIGN U+212A becomes `k`), and the model treats those characters as separators.
- Frequency.Total: is a ghost sum over the map. The order in which `sum` visits the Counter's values is not modelled; TotalRemove shows the result does not depend on it.
- The kind of exception is modelled by the outcome's constructor only. Message texts and tracebacks are not modelled.
