/**
 * The alphabet constants, the substring predicate and the word tokenizer
 * of src/TextUtils.kt.
 */
module TextUtils {

  const AlphabetFirst: char := 'a'
  const AlphabetLast: char := 'z'
  /** 'z' - 'a', that is 25: one less than the number of letters. */
  const AlphabetSize: int := AlphabetLast as int - AlphabetFirst as int

  predicate IsLetter(c: char) {
    AlphabetFirst <= c <= AlphabetLast
  }

  /** Every character lies in 'a'..'z'. */
  predicate IsWord(s: string) {
    forall i :: 0 <= i < |s| ==> IsLetter(s[i])
  }

  /** No character lies in 'a'..'z'. */
  predicate NoLetters(s: string) {
    forall i :: 0 <= i < |s| ==> !IsLetter(s[i])
  }

  /** sub occurs in str starting at position i. */
  predicate OccursAt(sub: string, str: string, i: int) {
    0 <= i <= |str| - |sub| && str[i..i + |sub|] == sub
  }

  /** `sub in str`: sub occurs as a contiguous piece of str. */
  function SubstringMatch(sub: string, str: string): (r: bool)
    ensures r <==> exists i :: OccursAt(sub, str, i)
    decreases |str|
  {
    if |sub| > |str| then false
    else if str[..|sub|] == sub then
      assert OccursAt(sub, str, 0);
      true
    else
      SubstringShift(sub, str);
      SubstringMatch(sub, str[1..])
  }

  /** An occurrence that is not at position 0 is an occurrence in str[1..]. */
  lemma SubstringShift(sub: string, str: string)
    requires |sub| <= |str| && str[..|sub|] != sub
    ensures (exists i :: OccursAt(sub, str, i)) <==> (exists i :: OccursAt(sub, str[1..], i))
  {
    if i :| OccursAt(sub, str, i) {
      assert i != 0;
      assert str[1..][i - 1..i - 1 + |sub|] == str[i..i + |sub|];
      assert OccursAt(sub, str[1..], i - 1);
    }
    if i :| OccursAt(sub, str[1..], i) {
      assert str[1..][i..i + |sub|] == str[i + 1..i + 1 + |sub|];
      assert OccursAt(sub, str, i + 1);
    }
  }

  // ---------------------------------------------------------------------
  // Reference definition of the tokenizer: skip separators, take the
  // maximal run of letters, repeat.
  // ---------------------------------------------------------------------

  /** Length of the longest prefix of t made of letters. */
  function RunLength(t: string): (k: nat)
    ensures k <= |t| && IsWord(t[..k])
    ensures k < |t| ==> !IsLetter(t[k])
    ensures IsWord(t) ==> k == |t|
  {
    if t == [] || !IsLetter(t[0]) then 0
    else
      var k := 1 + RunLength(t[1..]);
      assert t[..k] == [t[0]] + t[1..][..k - 1];
      k
  }

  /** The maximal runs of 'a'..'z' in text, left to right. */
  function Words(text: string): (ws: seq<string>)
    ensures forall j :: 0 <= j < |ws| ==> ws[j] != [] && IsWord(ws[j])
    decreases |text|
  {
    if text == [] then []
    else if !IsLetter(text[0]) then Words(text[1..])
    else
      var k := RunLength(text);
      [text[..k]] + Words(text[k..])
  }

  /** The separator stretches around the words of text: before the first
      word, between consecutive words, and after the last one. */
  function Separators(text: string): (seps: seq<string>)
    ensures |seps| == |Words(text)| + 1
    decreases |text|
  {
    if text == [] then [[]]
    else if !IsLetter(text[0]) then
      var s := Separators(text[1..]);
      [[text[0]] + s[0]] + s[1..]
    else
      [[]] + Separators(text[RunLength(text)..])
  }

  /** seps[0] + ws[0] + seps[1] + ws[1] + ... + seps[|ws|]. */
  function Weave(seps: seq<string>, ws: seq<string>): string
    requires |seps| == |ws| + 1
    decreases |ws|
  {
    if ws == [] then seps[0]
    else seps[0] + ws[0] + Weave(seps[1..], ws[1..])
  }

  /** The text with every character outside 'a'..'z' deleted. */
  function Letters(text: string): string {
    if text == [] then []
    else (if IsLetter(text[0]) then [text[0]] else []) + Letters(text[1..])
  }

  function Concat(ws: seq<string>): string {
    if ws == [] then [] else ws[0] + Concat(ws[1..])
  }

  /** The shape of a text cut into maximal runs: separators carry no
      letters, and every separator strictly between two words is non-empty. */
  predicate IsCut(text: string, seps: seq<string>, ws: seq<string>) {
    |seps| == |ws| + 1 &&
    (forall j :: 0 <= j < |seps| ==> NoLetters(seps[j])) &&
    (forall j :: 0 < j < |ws| ==> seps[j] != []) &&
    (forall j :: 0 <= j < |ws| ==> ws[j] != [] && IsWord(ws[j])) &&
    text == Weave(seps, ws)
  }

  // ---------------------------------------------------------------------
  // The tokenizer as the source runs it: one pass with a buffer.
  // ---------------------------------------------------------------------

  /** defaultSplitWords: the lazy sequence is returned as a finite seq. */
  method SplitWords(text: string) returns (words: seq<string>)
    ensures words == Words(text)
    ensures forall j :: 0 <= j < |words| ==> words[j] != [] && IsWord(words[j])
    ensures Concat(words) == Letters(text)
  {
    var sb: string := [];
    words := [];
    assert sb + text[0..] == text;
    for i := 0 to |text|
      invariant IsWord(sb)
      invariant words + Words(sb + text[i..]) == Words(text)
    {
      var ch := text[i];
      if !IsLetter(ch) {
        FlushAtSeparator(words, sb, text, i);
        if sb != [] {
          words := words + [sb];
          sb := [];
        }
      } else {
        AppendLetter(sb, text, i);
        sb := sb + [ch];
      }
    }
    FlushAtEnd(words, sb, text);
    if sb != [] {
      words := words + [sb];
    }
    WordsConcat(text);
  }

  // ---------------------------------------------------------------------
  // Properties of Words.
  // ---------------------------------------------------------------------

  /** A non-empty word is tokenized to itself. */
  lemma WordOfWord(w: string)
    requires w != [] && IsWord(w)
    ensures Words(w) == [w]
  {
    var k := RunLength(w);
    assert w[..k] == w && w[k..] == [];
  }

  /** One separator step of the tokenizer at position i: the buffer, if
      non-empty, is emitted as a word and the separator is dropped.
      The right-hand sides are written with the loop's own terms after
      the step (the buffer reset to [], or left at an empty sb), so that
      the loop invariant follows from them without further rewriting. */
  lemma FlushAtSeparator(words: seq<string>, sb: string, text: string, i: nat)
    requires i < |text| && !IsLetter(text[i]) && IsWord(sb)
    ensures sb != [] ==> words + Words(sb + text[i..]) == (words + [sb]) + Words([] + text[i + 1..])
    ensures sb == [] ==> words + Words(sb + text[i..]) == words + Words(sb + text[i + 1..])
  {
    var ch, rest := text[i], text[i + 1..];
    assert sb + text[i..] == sb + [ch] + rest;
    WordsAroundSeparator(sb, ch, rest);
    if sb != [] {
      WordOfWord(sb);
      assert [] + rest == rest;
    } else {
      assert [ch] + rest == sb + [ch] + rest;
      assert Words(sb) == [];
      assert sb + rest == rest;
    }
  }

  /** A letter at position i moves from the text into the buffer. */
  lemma AppendLetter(sb: string, text: string, i: nat)
    requires i < |text| && IsLetter(text[i]) && IsWord(sb)
    ensures IsWord(sb + [text[i]])
    ensures (sb + [text[i]]) + text[i + 1..] == sb + text[i..]
  {
    assert text[i..] == [text[i]] + text[i + 1..];
  }

  /** At the end of the text the buffer, if non-empty, is the last word. */
  lemma FlushAtEnd(words: seq<string>, sb: string, text: string)
    requires IsWord(sb) && words + Words(sb + text[|text|..]) == Words(text)
    ensures (if sb != [] then words + [sb] else words) == Words(text)
  {
    assert sb + text[|text|..] == sb;
    if sb != [] {
      WordOfWord(sb);
    } else {
      assert Words(sb) == [];
    }
  }

  /** Extending a text past the end of its first run does not change the run. */
  lemma {:induction false} RunLengthAppend(a: string, b: string)
    requires RunLength(a) < |a| || b == [] || !IsLetter(b[0])
    ensures RunLength(a + b) == RunLength(a)
  {
    if a == [] {
    } else if !IsLetter(a[0]) {
    } else {
      assert (a + b)[1..] == a[1..] + b;
      RunLengthAppend(a[1..], b);
    }
  }

  /** A separator character splits the tokenization in two. */
  lemma {:induction false} WordsAroundSeparator(a: string, c: char, b: string)
    requires !IsLetter(c)
    ensures Words(a + [c] + b) == Words(a) + Words(b)
    decreases |a|
  {
    var t := a + [c] + b;
    if a == [] {
      assert t == [c] + b && t[1..] == b;
    } else if !IsLetter(a[0]) {
      assert t[1..] == a[1..] + [c] + b;
      WordsAroundSeparator(a[1..], c, b);
    } else {
      var k := RunLength(a);
      FirstRunAppend(a, [c] + b);
      assert t == a + ([c] + b) && a[k..] + ([c] + b) == a[k..] + [c] + b;
      assert Words(a) == [a[..k]] + Words(a[k..]);
      WordsAroundSeparator(a[k..], c, b);
    }
  }

  /** The first word of a text that starts with a letter is not changed by
      appending text that starts with a separator. */
  lemma FirstRunAppend(a: string, s: string)
    requires a != [] && IsLetter(a[0]) && (s == [] || !IsLetter(s[0]))
    ensures Words(a + s) == [a[..RunLength(a)]] + Words(a[RunLength(a)..] + s)
  {
    var t, k := a + s, RunLength(a);
    assert t[0] == a[0];
    RunLengthAppend(a, s);
    assert t[..k] == a[..k] && t[k..] == a[k..] + s;
    assert Words(t) == [t[..k]] + Words(t[k..]);
  }

  /** Concatenating the words gives back exactly the letters of the text. */
  lemma {:induction false} WordsConcat(text: string)
    ensures Concat(Words(text)) == Letters(text)
    decreases |text|
  {
    if text == [] {
    } else if !IsLetter(text[0]) {
      WordsConcat(text[1..]);
    } else {
      var k := RunLength(text);
      WordsConcat(text[k..]);
      assert text == text[..k] + text[k..];
      LettersAppend(text[..k], text[k..]);
      LettersOfWord(text[..k]);
      assert Concat([text[..k]] + Words(text[k..])) == text[..k] + Concat(Words(text[k..]));
    }
  }

  lemma {:induction false} LettersAppend(a: string, b: string)
    ensures Letters(a + b) == Letters(a) + Letters(b)
  {
    if a != [] {
      assert (a + b)[1..] == a[1..] + b;
      LettersAppend(a[1..], b);
    } else {
      assert a + b == b;
    }
  }

  lemma {:induction false} LettersOfWord(w: string)
    requires IsWord(w)
    ensures Letters(w) == w
  {
    if w != [] {
      LettersOfWord(w[1..]);
    }
  }

  /** Every text is cut by its words and separators into maximal runs. */
  lemma {:induction false} WordsCut(text: string)
    ensures IsCut(text, Separators(text), Words(text))
    decreases |text|
  {
    if text == [] {
    } else if !IsLetter(text[0]) {
      WordsCut(text[1..]);
      CutAfterSeparator(text[0], text[1..], Separators(text[1..]), Words(text[1..]));
      assert text == [text[0]] + text[1..];
    } else {
      var k := RunLength(text);
      var rest := text[k..];
      WordsCut(rest);
      assert Words(rest) != [] ==> !IsLetter(rest[0]);
      CutBeforeWord(text[..k], rest, Separators(rest), Words(rest));
      assert text == text[..k] + rest;
    }
  }

  lemma CutAfterSeparator(c: char, t: string, seps: seq<string>, ws: seq<string>)
    requires !IsLetter(c) && IsCut(t, seps, ws)
    ensures IsCut([c] + t, [[c] + seps[0]] + seps[1..], ws)
  {
    var seps' := [[c] + seps[0]] + seps[1..];
    assert forall j :: 0 < j < |seps'| ==> seps'[j] == seps[j];
    assert NoLetters(seps'[0]) by {
      assert forall i :: 0 < i < |seps'[0]| ==> seps'[0][i] == seps[0][i - 1];
    }
    if ws != [] {
      assert seps'[1..] == seps[1..];
    }
  }

  lemma CutBeforeWord(w: string, t: string, seps: seq<string>, ws: seq<string>)
    requires w != [] && IsWord(w) && IsCut(t, seps, ws)
    requires ws != [] ==> !IsLetter(t[0])
    ensures IsCut(w + t, [[]] + seps, [w] + ws)
  {
    var seps', ws' := [[]] + seps, [w] + ws;
    assert seps'[1..] == seps && ws'[1..] == ws;
    assert forall j :: 0 < j < |seps'| ==> seps'[j] == seps[j - 1];
    assert forall j :: 0 < j < |ws'| ==> ws'[j] == ws[j - 1];
    if ws != [] {
      assert t == seps[0] + ws[0] + Weave(seps[1..], ws[1..]);
      assert t[0] == (seps[0] + ws[0])[0];
      assert IsLetter(ws[0][0]);
    }
  }

  /** A cut that starts with a separator character stays a cut of the rest
      of the text once that character is dropped. */
  lemma CutDropSeparator(text: string, seps: seq<string>, ws: seq<string>)
    requires IsCut(text, seps, ws) && seps[0] != []
    ensures text != [] && !IsLetter(text[0])
    ensures IsCut(text[1..], [seps[0][1..]] + seps[1..], ws)
  {
    var seps' := [seps[0][1..]] + seps[1..];
    assert text[0] == seps[0][0] && !IsLetter(text[0]);
    assert forall j :: 0 < j < |seps'| ==> seps'[j] == seps[j];
    if ws != [] {
      assert seps'[1..] == seps[1..];
    }
  }

  /** A cut that starts with a word: the word is the first maximal run and
      the rest of the cut is a cut of what follows it. */
  lemma CutFirstWord(text: string, seps: seq<string>, ws: seq<string>)
    requires IsCut(text, seps, ws) && seps[0] == [] && ws != []
    ensures RunLength(text) == |ws[0]| && text[..|ws[0]|] == ws[0]
    ensures IsCut(text[|ws[0]|..], seps[1..], ws[1..])
  {
    var r := Weave(seps[1..], ws[1..]);
    assert text == ws[0] + r;
    assert r == [] || !IsLetter(r[0]) by {
      if |ws| > 1 {
        assert seps[1] != [];
        assert r == seps[1] + ws[1] + Weave(seps[2..], ws[2..]) by {
          assert seps[1..][1..] == seps[2..];
        }
        assert r[0] == seps[1][0];
      } else {
        assert r == seps[1];
      }
    }
    RunLengthAppend(ws[0], r);
    assert text[..|ws[0]|] == ws[0] && text[|ws[0]|..] == r;
    assert forall j :: 0 < j < |ws| - 1 ==> seps[1..][j] == seps[j + 1];
  }

  /** The cut into maximal runs is unique: any such cut has the words of Words. */
  lemma {:induction false} WordsUnique(text: string, seps: seq<string>, ws: seq<string>)
    requires IsCut(text, seps, ws)
    ensures ws == Words(text)
    decreases |text|
  {
    if seps[0] != [] {
      CutDropSeparator(text, seps, ws);
      WordsUnique(text[1..], [seps[0][1..]] + seps[1..], ws);
    } else if ws != [] {
      CutFirstWord(text, seps, ws);
      WordsUnique(text[|ws[0]|..], seps[1..], ws[1..]);
    }
  }

  /** Every word of a text occurs in it. */
  lemma {:induction false} WordOccurs(text: string, x: string)
    requires x in Words(text)
    ensures exists i :: OccursAt(x, text, i)
    decreases |text|
  {
    if !IsLetter(text[0]) {
      WordOccurs(text[1..], x);
      var i :| OccursAt(x, text[1..], i);
      assert text[i + 1..i + 1 + |x|] == text[1..][i..i + |x|];
      assert OccursAt(x, text, i + 1);
    } else {
      var k := RunLength(text);
      if x == text[..k] {
        assert OccursAt(x, text, 0);
      } else {
        WordOccurs(text[k..], x);
        var i :| OccursAt(x, text[k..], i);
        assert text[k + i..k + i + |x|] == text[k..][i..i + |x|];
        assert OccursAt(x, text, k + i);
      }
    }
  }

  /** A text yields no word exactly when it holds no letter. */
  lemma {:induction false} NoWordsIffNoLetters(text: string)
    ensures Words(text) == [] <==> NoLetters(text)
    decreases |text|
  {
    if text != [] {
      if !IsLetter(text[0]) {
        NoWordsIffNoLetters(text[1..]);
        assert NoLetters(text) <==> NoLetters(text[1..]) by {
          assert forall i :: 0 < i < |text| ==> text[i] == text[1..][i - 1];
        }
      }
    }
  }
}
