/** The dictionary index built by loadTries: one prefix tree per word
    length, holding exactly the words of that length. */
module Dictionary {

  import opened Trie

  /** `tries[L]` is the root of the tree for words of length L. */
  type Tries = map<nat, Node>

  /** One round of the outer loop of loadTries: a word of length 0 or 1 is
      skipped; any other word is inserted into the tree for its length,
      which is created empty when missing. */
  function AddWord(tries: Tries, word: string): Tries
  {
    if |word| <= 1 then tries
    else
      var root := if |word| in tries then tries[|word|] else Empty;
      tries[|word| := Insert(root, word)]
  }

  /** The index after the words of `words`, in order, have been added. */
  function Loaded(words: seq<string>): Tries
  {
    if words == [] then map[]
    else AddWord(Loaded(words[..|words| - 1]), words[|words| - 1])
  }

  /** `s` begins some listed word of length `L`, and `L` is a length the
      index keeps. */
  predicate Indexed(words: seq<string>, L: nat, s: string)
  {
    2 <= L && exists w :: w in words && |w| == L && s <= w
  }

  method LoadTries(wordList: seq<string>) returns (tries: Tries)
    ensures tries == Loaded(wordList)
    ensures forall L :: L in tries ==> 2 <= L
  {
    tries := map[];
    for k := 0 to |wordList|
      invariant tries == Loaded(wordList[..k])
      invariant forall L :: L in tries ==> 2 <= L
    {
      assert wordList[..k + 1][..k] == wordList[..k];
      var word := wordList[k];
      var wordLength := |word|;
      if wordLength <= 1 {
        continue;
      }
      var node := if wordLength in tries then tries[wordLength] else Empty;
      tries := tries[wordLength := Insert(node, word)];
    }
    assert wordList[..|wordList|] == wordList;
  }

  /** The paths of `tries[L]` are exactly the prefixes of the listed words of
      length L, and there is a tree for L exactly when such a word exists
      and L is at least 2. */
  lemma {:induction false} LoadedPaths(words: seq<string>, L: nat, s: string)
    ensures (L in Loaded(words) && IsPath(Loaded(words)[L], s)) <==> Indexed(words, L, s)
    decreases |words|
  {
    if words != [] {
      var init, last := words[..|words| - 1], words[|words| - 1];
      assert words == init + [last];
      LoadedPaths(init, L, s);
      var before := Loaded(init);
      if |last| >= 2 && L == |last| {
        var root := if L in before then before[L] else Empty;
        InsertPaths(root, last, s);
        EmptyPaths(s);
        if s <= last {
          assert last in words;
        }
      }
      if Indexed(words, L, s) {
        var w :| w in words && |w| == L && s <= w;
        if w != last {
          assert w in init;
        }
      }
    }
  }

  /** Every listed word of two letters or more is a complete path of the tree
      for its length; together with LoadedPaths, a full-depth path is
      exactly a listed word. */
  lemma LoadedWords(words: seq<string>, w: string)
    ensures (|w| in Loaded(words) && IsPath(Loaded(words)[|w|], w)) <==> 2 <= |w| && w in words
  {
    LoadedPaths(words, |w|, w);
    if Indexed(words, |w|, w) {
      var v :| v in words && |v| == |w| && w <= v;
      assert v == w;
    }
  }

  /** No node of `tries[L]` lies deeper than L, and no tree exists for a
      length below 2. */
  lemma LoadedDepth(words: seq<string>, L: nat, s: string)
    requires L in Loaded(words) && IsPath(Loaded(words)[L], s)
    ensures 2 <= L && |s| <= L
  {
    LoadedPaths(words, L, s);
  }
}
