/** The tokenizer of term_freq_script.py: `tokens(text)` lower-cases the text
    and returns the maximal runs of the letters 'a'..'z', in text order, i.e.
    `re.findall('[a-z]+', text.lower())`.

    The regular expression is written out as an explicit scanner (Scan); its
    meaning is pinned down independently by IsSplit, which describes every
    way of cutting a text into letter-free separators and letter-only words.
    ScanIsSplit and SplitIsScan show that the scanner's output is the one and
    only such cut whose inner separators are non-empty. */
module Tokenizer {

  /** A character that can be part of a token. */
  predicate IsLetter(c: char) {
    'a' <= c <= 'z'
  }

  /** A token: a non-empty string of letters 'a'..'z'. */
  predicate IsWord(t: string) {
    |t| > 0 && forall i :: 0 <= i < |t| ==> IsLetter(t[i])
  }

  /** A separator: a string in which no character can be part of a token. */
  predicate NoLetters(s: string) {
    forall i :: 0 <= i < |s| ==> !IsLetter(s[i])
  }

  /** ASCII case folding: 'A'..'Z' become 'a'..'z', every other character
      is left alone. */
  function Lower(c: char): (r: char)
    ensures 'A' <= c <= 'Z' ==> r as int - 'a' as int == c as int - 'A' as int
    ensures !('A' <= c <= 'Z') ==> r == c
    ensures IsLetter(r) <==> IsLetter(c) || 'A' <= c <= 'Z'
    ensures !('A' <= r <= 'Z')
  {
    if 'A' <= c <= 'Z' then (c as int - 'A' as int + 'a' as int) as char else c
  }

  /** ASCII `s.lower()`: each capital becomes the small letter at the same
      place in the alphabet and every other character is kept, so no capital
      is left and a position holds a letter exactly when it held a letter or
      a capital. */
  function LowerText(s: string): (r: string)
    ensures |r| == |s|
    ensures forall i :: 0 <= i < |r| ==>
      ('A' <= s[i] <= 'Z' ==> r[i] as int - 'a' as int == s[i] as int - 'A' as int) &&
      (!('A' <= s[i] <= 'Z') ==> r[i] == s[i])
    ensures forall i :: 0 <= i < |r| ==> !('A' <= r[i] <= 'Z')
    ensures forall i :: 0 <= i < |r| ==> (IsLetter(r[i]) <==> IsLetter(s[i]) || 'A' <= s[i] <= 'Z')
  {
    seq(|s|, i requires 0 <= i < |s| => Lower(s[i]))
  }

  /** Lower-casing a second time changes nothing. */
  lemma LowerTextIdempotent(s: string)
    ensures LowerText(LowerText(s)) == LowerText(s)
  {
  }

  /** The length of the run of letters at the start of s. */
  function RunLength(s: string): (n: nat)
    ensures n <= |s|
    ensures forall i :: 0 <= i < n ==> IsLetter(s[i])
    ensures n == |s| || !IsLetter(s[n])
  {
    if s == [] || !IsLetter(s[0]) then 0 else 1 + RunLength(s[1..])
  }

  /** The scanner behind `re.findall('[a-z]+', s)`: skip a separator
      character, or cut off the maximal run of letters at the front. */
  function Scan(s: string): (toks: seq<string>)
    ensures forall i :: 0 <= i < |toks| ==> IsWord(toks[i])
    decreases |s|
  {
    if s == [] then []
    else if !IsLetter(s[0]) then Scan(s[1..])
    else
      var n := RunLength(s);
      [s[..n]] + Scan(s[n..])
  }

  /** `tokens(text)`: every token is a non-empty run of 'a'..'z'. */
  function Tokens(text: string): (toks: seq<string>)
    ensures forall i :: 0 <= i < |toks| ==> IsWord(toks[i])
  {
    Scan(LowerText(text))
  }

  /** The tokens glued together with nothing between them. */
  function Concat(toks: seq<string>): string {
    if toks == [] then [] else toks[0] + Concat(toks[1..])
  }

  /** s with every character that is not a letter removed. */
  function Letters(s: string): string {
    if s == [] then []
    else (if IsLetter(s[0]) then [s[0]] else []) + Letters(s[1..])
  }

  /** `' '.join(toks)`. */
  function JoinWords(toks: seq<string>): string {
    if toks == [] then []
    else if |toks| == 1 then toks[0]
    else toks[0] + " " + JoinWords(toks[1..])
  }

  /** The text cut as seps[0] + toks[0] + seps[1] + ... + toks[n-1] + seps[n]. */
  function Weave(seps: seq<string>, toks: seq<string>): string
    requires |seps| == |toks| + 1
  {
    if toks == [] then seps[0] else seps[0] + toks[0] + Weave(seps[1..], toks[1..])
  }

  /** s consists of the words toks, in order, separated by letter-free
      strings, where every separator between two words is non-empty (so no
      two words touch and every word is a maximal run of letters). */
  predicate IsSplit(s: string, seps: seq<string>, toks: seq<string>) {
    && |seps| == |toks| + 1
    && Weave(seps, toks) == s
    && (forall i :: 0 <= i < |toks| ==> IsWord(toks[i]))
    && (forall i :: 0 <= i < |seps| ==> NoLetters(seps[i]))
    && (forall i :: 0 < i < |toks| ==> seps[i] != [])
  }

  lemma {:induction false} RunLengthOfWord(t: string, w: string)
    requires forall i :: 0 <= i < |t| ==> IsLetter(t[i])
    requires w == [] || !IsLetter(w[0])
    ensures RunLength(t + w) == |t|
    decreases |t|
  {
    if t != [] {
      assert (t + w)[1..] == t[1..] + w;
      RunLengthOfWord(t[1..], w);
    }
  }

  /** A separator character in front of a split text joins its first separator. */
  lemma SplitConsSeparator(c: char, rest: string, g: seq<string>, toks: seq<string>)
    requires !IsLetter(c) && IsSplit(rest, g, toks)
    ensures IsSplit([c] + rest, [[c] + g[0]] + g[1..], toks)
  {
    var seps := [[c] + g[0]] + g[1..];
    if toks == [] {
      assert Weave(g, toks) == g[0];
    } else {
      assert seps[1..] == g[1..];
      assert Weave(g, toks) == g[0] + toks[0] + Weave(g[1..], toks[1..]);
    }
    assert Weave(seps, toks) == [c] + rest;
    assert forall i :: 0 < i < |seps| ==> seps[i] == g[i];
  }

  /** A word in front of a split text that does not start with a letter
      becomes its first word, after an empty separator. */
  lemma SplitConsWord(t: string, rest: string, g: seq<string>, toks: seq<string>)
    requires IsWord(t) && IsSplit(rest, g, toks)
    requires rest == [] || !IsLetter(rest[0])
    ensures IsSplit(t + rest, [[]] + g, [t] + toks)
  {
    var seps := [[]] + g;
    assert seps[1..] == g && ([t] + toks)[1..] == toks;
    assert forall i :: 0 < i < |seps| ==> seps[i] == g[i - 1];
  }

  /** The scanner's tokens are a split of the text: existence half of the
      characterization of `re.findall('[a-z]+', s)`. */
  lemma {:induction false} ScanIsSplit(s: string)
    ensures exists seps :: IsSplit(s, seps, Scan(s))
    decreases |s|
  {
    if s == [] {
      assert IsSplit(s, [[]], Scan(s));
    } else if !IsLetter(s[0]) {
      ScanIsSplit(s[1..]);
      var g :| IsSplit(s[1..], g, Scan(s[1..]));
      SplitConsSeparator(s[0], s[1..], g, Scan(s[1..]));
      assert [s[0]] + s[1..] == s;
      assert IsSplit(s, [[s[0]] + g[0]] + g[1..], Scan(s));
    } else {
      var n := RunLength(s);
      ScanIsSplit(s[n..]);
      var g :| IsSplit(s[n..], g, Scan(s[n..]));
      SplitConsWord(s[..n], s[n..], g, Scan(s[n..]));
      assert s[..n] + s[n..] == s;
      assert IsSplit(s, [[]] + g, Scan(s));
    }
  }

  /** Any split of the text is the scanner's output: uniqueness half of the
      characterization, so the tokens are exactly the maximal letter runs. */
  lemma {:induction false} SplitIsScan(s: string, seps: seq<string>, toks: seq<string>)
    requires IsSplit(s, seps, toks)
    ensures toks == Scan(s)
    decreases |s|
  {
    if seps[0] != [] {
      assert s[0] == seps[0][0];
      var seps' := [seps[0][1..]] + seps[1..];
      assert seps'[1..] == seps[1..];
      assert Weave(seps', toks) == s[1..];
      assert forall i :: 0 < i < |seps'| ==> seps'[i] == seps[i];
      assert NoLetters(seps'[0]);
      SplitIsScan(s[1..], seps', toks);
    } else if toks != [] {
      var t := toks[0];
      var w := Weave(seps[1..], toks[1..]);
      assert s == t + w;
      if |toks| == 1 {
        assert w == seps[1];
      } else {
        assert seps[1] != [] && w[0] == seps[1][0];
      }
      RunLengthOfWord(t, w);
      assert s[..|t|] == t && s[|t|..] == w;
      assert forall i :: 0 < i < |seps[1..]| ==> seps[1..][i] == seps[i + 1];
      SplitIsScan(w, seps[1..], toks[1..]);
    }
  }

  /** The tokens of a text are determined exactly by the splits of its
      lower-cased form: toks is `tokens(text)` if and only if the
      lower-cased text cuts into toks and letter-free separators. */
  lemma TokensCharacterized(text: string, toks: seq<string>)
    ensures Tokens(text) == toks <==> exists seps :: IsSplit(LowerText(text), seps, toks)
  {
    ScanIsSplit(LowerText(text));
    if seps :| IsSplit(LowerText(text), seps, toks) {
      SplitIsScan(LowerText(text), seps, toks);
    }
  }

  lemma {:induction false} LettersAppend(a: string, b: string)
    ensures Letters(a + b) == Letters(a) + Letters(b)
    decreases |a|
  {
    if a == [] {
      assert a + b == b;
    } else {
      var h := if IsLetter(a[0]) then [a[0]] else [];
      assert (a + b)[0] == a[0] && (a + b)[1..] == a[1..] + b;
      assert Letters(a + b) == h + Letters(a[1..] + b);
      LettersAppend(a[1..], b);
      assert Letters(a) == h + Letters(a[1..]);
    }
  }

  lemma {:induction false} LettersOfRun(t: string)
    requires forall i :: 0 <= i < |t| ==> IsLetter(t[i])
    ensures Letters(t) == t
    decreases |t|
  {
    if t != [] {
      LettersOfRun(t[1..]);
    }
  }

  /** Gluing the scanner's tokens back together gives the text with every
      non-letter dropped: nothing but letters is kept, and no letter is lost. */
  lemma {:induction false} ScanConcat(s: string)
    ensures Concat(Scan(s)) == Letters(s)
    decreases |s|
  {
    if s != [] {
      if !IsLetter(s[0]) {
        ScanConcat(s[1..]);
      } else {
        var n := RunLength(s);
        ScanConcat(s[n..]);
        assert ([s[..n]] + Scan(s[n..]))[1..] == Scan(s[n..]);
        assert s == s[..n] + s[n..];
        LettersAppend(s[..n], s[n..]);
        LettersOfRun(s[..n]);
      }
    }
  }

  /** Concatenating `tokens(text)` gives the lower-cased text with every
      non-letter removed. */
  lemma TokensConcat(text: string)
    ensures Concat(Tokens(text)) == Letters(LowerText(text))
  {
    ScanConcat(LowerText(text));
  }

  lemma {:induction false} JoinWordsChars(toks: seq<string>)
    requires forall i :: 0 <= i < |toks| ==> IsWord(toks[i])
    ensures forall i :: 0 <= i < |JoinWords(toks)| ==> IsLetter(JoinWords(toks)[i]) || JoinWords(toks)[i] == ' '
    decreases |toks|
  {
    if |toks| > 1 {
      JoinWordsChars(toks[1..]);
      var j := JoinWords(toks[1..]);
      assert JoinWords(toks) == toks[0] + " " + j;
      forall i | 0 <= i < |JoinWords(toks)|
        ensures IsLetter(JoinWords(toks)[i]) || JoinWords(toks)[i] == ' '
      {
        if i > |toks[0]| {
          assert JoinWords(toks)[i] == j[i - |toks[0]| - 1];
        }
      }
    }
  }

  lemma {:induction false} ScanJoinWords(toks: seq<string>)
    requires forall i :: 0 <= i < |toks| ==> IsWord(toks[i])
    ensures Scan(JoinWords(toks)) == toks
    decreases |toks|
  {
    if |toks| == 1 {
      RunLengthOfWord(toks[0], []);
      assert toks[0] + [] == toks[0];
      assert JoinWords(toks)[|toks[0]|..] == [];
    } else if |toks| > 1 {
      var t := toks[0];
      var j := JoinWords(toks[1..]);
      var s := JoinWords(toks);
      assert s == t + (" " + j);
      RunLengthOfWord(t, " " + j);
      assert s[|t|..] == " " + j && (" " + j)[1..] == j;
      ScanJoinWords(toks[1..]);
      assert Scan(" " + j) == Scan(j);
    }
  }

  /** Tokenizing is idempotent: tokenizing the space-joined tokens of a text
      gives back the same tokens. */
  lemma TokensIdempotent(text: string)
    ensures Tokens(JoinWords(Tokens(text))) == Tokens(text)
  {
    var toks := Tokens(text);
    var j := JoinWords(toks);
    JoinWordsChars(toks);
    assert LowerText(j) == j;
    ScanJoinWords(toks);
  }

  lemma DocExampleSplit()
    ensures IsSplit("hello! this is a sentence.", ["", "! ", " ", " ", " ", "."], ["hello", "this", "is", "a", "sentence"])
  {
    DocExampleWeave();
    DocExampleWords();
    DocExampleSeparators();
  }

  /** The docstring example rebuilt from its cut, one word at a time from
      the back. */
  lemma DocExampleWeave()
    ensures Weave(["", "! ", " ", " ", " ", "."], ["hello", "this", "is", "a", "sentence"]) == "hello! this is a sentence."
  {
    DocExampleWeaveTail();
    assert ["", "! ", " ", " ", " ", "."][1..] == ["! ", " ", " ", " ", "."];
    assert ["hello", "this", "is", "a", "sentence"][1..] == ["this", "is", "a", "sentence"];
    assert "" + "hello" + "! this is a sentence." == "hello! this is a sentence.";
  }

  lemma DocExampleWeaveTail()
    ensures Weave(["! ", " ", " ", " ", "."], ["this", "is", "a", "sentence"]) == "! this is a sentence."
  {
    DocExampleWeaveEnd();
    assert ["! ", " ", " ", " ", "."][1..] == [" ", " ", " ", "."];
    assert ["this", "is", "a", "sentence"][1..] == ["is", "a", "sentence"];
    assert "! " + "this" + " is a sentence." == "! this is a sentence.";
  }

  lemma DocExampleWeaveEnd()
    ensures Weave([" ", " ", " ", "."], ["is", "a", "sentence"]) == " is a sentence."
  {
    assert Weave([" ", "."], ["sentence"]) == " sentence.";
    assert Weave([" ", " ", "."], ["a", "sentence"]) == " a sentence.";
  }

  lemma DocExampleWords()
    ensures forall t :: t in ["hello", "this", "is", "a", "sentence"] ==> IsWord(t)
  {
    var toks := ["hello", "this", "is", "a", "sentence"];
    forall i | 0 <= i < |toks| ensures IsWord(toks[i]) {
      if i == 0 {} else if i == 1 {} else if i == 2 {} else if i == 3 {} else {}
    }
  }

  lemma DocExampleSeparators()
    ensures forall t :: t in ["", "! ", " ", " ", " ", "."] ==> NoLetters(t)
  {
    var seps := ["", "! ", " ", " ", " ", "."];
    forall i | 0 <= i < |seps| ensures NoLetters(seps[i]) {
      if i == 0 {} else if i == 1 {} else if i == 5 {} else { assert seps[i] == " "; }
    }
  }

  lemma DocExampleLowered()
    ensures LowerText("Hello! This is a sentence.") == "hello! this is a sentence."
  {
  }

  /** The example in the docstring of `tokens`. */
  lemma TokensDocExample()
    ensures Tokens("Hello! This is a sentence.") == ["hello", "this", "is", "a", "sentence"]
  {
    DocExampleLowered();
    DocExampleSplit();
    SplitIsScan("hello! this is a sentence.", ["", "! ", " ", " ", " ", "."], ["hello", "this", "is", "a", "sentence"]);
  }
}
