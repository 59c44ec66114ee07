/** The segment composer, words, and the lookup that starts a query: the
    matcher is chained across the segments of a pattern, left to right,
    from the root of the tree for the pattern's total length. */
module Composer {

  import opened Trie
  import opened Letters
  import opened Matcher
  import opened Dictionary

  /** One chunk of the target word: how many letters it takes and the pool
      it may draw them from. */
  datatype Segment = Segment(length: nat, letters: seq<char>)

  /** The sum of the segment lengths, the length of every word a query can yield. */
  function TotalLength(pattern: seq<Segment>): nat
  {
    if pattern == [] then 0 else pattern[0].length + TotalLength(pattern[1..])
  }

  /** `s` splits into consecutive chunks, one per segment from `i` on, each
      of that segment's length and drawn from its pool without reuse. */
  predicate Fits(pattern: seq<Segment>, i: nat, s: string)
    decreases |pattern| - i
  {
    if i >= |pattern| then s == []
    else
      var L := pattern[i].length;
      L <= |s| && multiset(s[..L]) <= multiset(pattern[i].letters) && Fits(pattern, i + 1, s[L..])
  }

  /** A string that fits the segments from `i` on is as long as they are together. */
  lemma {:induction false} FitsLength(pattern: seq<Segment>, i: nat, s: string)
    requires i <= |pattern| && Fits(pattern, i, s)
    ensures |s| == TotalLength(pattern[i..])
    decreases |pattern| - i
  {
    if i < |pattern| {
      var L := pattern[i].length;
      FitsLength(pattern, i + 1, s[L..]);
      assert pattern[i..][1..] == pattern[i + 1..];
    }
  }

  /** The completed words for the segments from `i` on, starting at `node`
      with `word` already spelled. */
  function Words(pattern: seq<Segment>, node: Node, i: nat, word: string): seq<string>
    decreases |pattern| - i, 2
  {
    if i >= |pattern| then []
    else Extend(pattern, i, NextNodes(word, node, pattern[i].letters, pattern[i].length))
  }

  /** The loop over what the matcher yields for segment `i`. */
  function Extend(pattern: seq<Segment>, i: nat, ms: seq<Match>): seq<string>
    requires i < |pattern|
    decreases |pattern| - i, 1, |ms|
  {
    if ms == [] then []
    else ExtendOne(pattern, i, ms[0]) + Extend(pattern, i, ms[1..])
  }

  /** After the last segment a pair's word is complete; otherwise the next
      segment continues from the pair's node and word. */
  function ExtendOne(pattern: seq<Segment>, i: nat, m: Match): seq<string>
    requires i < |pattern|
    decreases |pattern| - i, 0
  {
    if i + 1 >= |pattern| then [m.word]
    else Words(pattern, m.node, i + 1, m.word)
  }

  /** `w` is `word` followed by a string that fits the segments from `i` on
      and is a path from `node`. */
  predicate Completes(pattern: seq<Segment>, i: nat, node: Node, word: string, w: string)
  {
    |word| <= |w| && w[..|word|] == word && Fits(pattern, i, w[|word|..]) && IsPath(node, w[|word|..])
  }

  /** Soundness: every word yielded follows the segments, each chunk drawn
      from its own pool, along a path of the tree. */
  lemma {:induction false} WordsSound(pattern: seq<Segment>, node: Node, i: nat, word: string)
    ensures forall w | w in Words(pattern, node, i, word) :: i < |pattern| && Completes(pattern, i, node, word, w)
    decreases |pattern| - i, 2
  {
    if i < |pattern| {
      var ms := NextNodes(word, node, pattern[i].letters, pattern[i].length);
      NextNodesSound(word, node, pattern[i].letters, pattern[i].length);
      ExtendSound(pattern, i, node, word, ms);
    }
  }

  lemma {:induction false} ExtendSound(pattern: seq<Segment>, i: nat, node: Node, word: string, ms: seq<Match>)
    requires i < |pattern|
    requires forall m | m in ms :: Extends(word, node, pattern[i].letters, pattern[i].length, m)
    ensures forall w | w in Extend(pattern, i, ms) :: Completes(pattern, i, node, word, w)
    decreases |pattern| - i, 1, |ms|
  {
    if ms != [] {
      ExtendOneSound(pattern, i, node, word, ms[0]);
      ExtendSound(pattern, i, node, word, ms[1..]);
    }
  }

  lemma {:induction false} ExtendOneSound(pattern: seq<Segment>, i: nat, node: Node, word: string, m: Match)
    requires i < |pattern|
    requires Extends(word, node, pattern[i].letters, pattern[i].length, m)
    ensures forall w | w in ExtendOne(pattern, i, m) :: Completes(pattern, i, node, word, w)
    decreases |pattern| - i, 0
  {
    var L := pattern[i].length;
    var s1 := m.word[|word|..];
    if i + 1 >= |pattern| {
      assert s1[..L] == s1 && s1[L..] == [];
      assert Fits(pattern, i + 1, s1[L..]);
      assert Fits(pattern, i, s1);
      assert m.word[|word|..] == s1;
    } else {
      WordsSound(pattern, m.node, i + 1, m.word);
      forall w | w in ExtendOne(pattern, i, m) ensures Completes(pattern, i, node, word, w) {
        var s2 := w[|m.word|..];
        var s := w[|word|..];
        assert w == m.word + s2;
        assert s == s1 + s2;
        assert s[..L] == s1 && s[L..] == s2;
        WalkAppend(node, s1, s2);
      }
    }
  }

  /** Everything a pair leads to, the loop over a list holding that pair
      yields too. */
  lemma {:induction false} ExtendOneInExtend(pattern: seq<Segment>, i: nat, ms: seq<Match>, m: Match)
    requires i < |pattern| && m in ms
    ensures forall w | w in ExtendOne(pattern, i, m) :: w in Extend(pattern, i, ms)
    decreases |ms|
  {
    if ms[0] != m {
      ExtendOneInExtend(pattern, i, ms[1..], m);
    }
  }

  /** Completeness: every path from `node` that fits the segments from `i`
      on is yielded, after `word`. */
  lemma {:induction false} WordsComplete(pattern: seq<Segment>, node: Node, i: nat, word: string, s: string)
    requires i < |pattern| && Fits(pattern, i, s) && IsPath(node, s)
    ensures word + s in Words(pattern, node, i, word)
    decreases |pattern| - i
  {
    var L := pattern[i].length;
    var s1, s2 := s[..L], s[L..];
    assert s == s1 + s2;
    WalkAppend(node, s1, s2);
    var n1 := Walk(node, s1).value;
    NextNodesComplete(word, node, pattern[i].letters, s1);
    var m := Match(word + s1, n1);
    var ms := NextNodes(word, node, pattern[i].letters, pattern[i].length);
    assert m in ms;
    if i + 1 >= |pattern| {
      assert s2 == [];
      assert word + s == m.word;
    } else {
      WordsComplete(pattern, n1, i + 1, word + s1, s2);
      assert word + s1 + s2 == word + s;
    }
    ExtendOneInExtend(pattern, i, ms, m);
  }

  /** Every word a pair leads to begins with the pair's word. */
  lemma ExtendOnePrefix(pattern: seq<Segment>, i: nat, m: Match)
    requires i < |pattern|
    ensures forall w | w in ExtendOne(pattern, i, m) :: m.word <= w
  {
    if i + 1 < |pattern| {
      WordsSound(pattern, m.node, i + 1, m.word);
    }
  }

  /** Every word of the loop begins with the word of one of its pairs. */
  lemma {:induction false} ExtendPrefix(pattern: seq<Segment>, i: nat, ms: seq<Match>)
    requires i < |pattern|
    ensures forall w | w in Extend(pattern, i, ms) :: exists j :: 0 <= j < |ms| && ms[j].word <= w
    decreases |ms|
  {
    if ms != [] {
      ExtendOnePrefix(pattern, i, ms[0]);
      ExtendPrefix(pattern, i, ms[1..]);
      forall w | w in Extend(pattern, i, ms) ensures exists j :: 0 <= j < |ms| && ms[j].word <= w {
        if w in ExtendOne(pattern, i, ms[0]) {
          assert ms[0].word <= w;
        } else {
          assert w in Extend(pattern, i, ms[1..]);
          var j :| 0 <= j < |ms[1..]| && ms[1..][j].word <= w;
          assert ms[j + 1].word <= w;
        }
      }
    }
  }

  /** All pools sorted, as the query driver leaves them. */
  predicate PoolsSorted(pattern: seq<Segment>)
  {
    forall j :: 0 <= j < |pattern| ==> Sorted(pattern[j].letters)
  }

  /** Duplicate suppression across segments: with sorted pools the words
      come out in strictly ascending order, so none is yielded twice. */
  lemma {:induction false} WordsAscending(pattern: seq<Segment>, node: Node, i: nat, word: string)
    requires PoolsSorted(pattern)
    ensures Ascending(Words(pattern, node, i, word))
    decreases |pattern| - i, 2
  {
    if i < |pattern| {
      var ms := NextNodes(word, node, pattern[i].letters, pattern[i].length);
      NextNodesSound(word, node, pattern[i].letters, pattern[i].length);
      NextNodesAscending(word, node, pattern[i].letters, pattern[i].length);
      ExtendAscending(pattern, i, node, word, ms);
    }
  }

  lemma {:induction false} ExtendAscending(pattern: seq<Segment>, i: nat, node: Node, word: string, ms: seq<Match>)
    requires PoolsSorted(pattern) && i < |pattern|
    requires AscendingMatches(ms)
    requires forall m | m in ms :: Extends(word, node, pattern[i].letters, pattern[i].length, m)
    ensures Ascending(Extend(pattern, i, ms))
    decreases |pattern| - i, 1, |ms|
  {
    if ms != [] {
      var head := ExtendOne(pattern, i, ms[0]);
      var rest := Extend(pattern, i, ms[1..]);
      if i + 1 < |pattern| {
        WordsAscending(pattern, ms[0].node, i + 1, ms[0].word);
      }
      assert AscendingMatches(ms[1..]);
      ExtendAscending(pattern, i, node, word, ms[1..]);
      ExtendOnePrefix(pattern, i, ms[0]);
      ExtendPrefix(pattern, i, ms[1..]);
      forall x, y | x in head && y in rest ensures LexLess(x, y) {
        var j :| 0 <= j < |ms[1..]| && ms[1..][j].word <= y;
        var b := ms[j + 1];
        assert LexLess(ms[0].word, b.word);
        assert Extends(word, node, pattern[i].letters, pattern[i].length, b);
        assert Extends(word, node, pattern[i].letters, pattern[i].length, ms[0]);
        assert x == ms[0].word + x[|ms[0].word|..];
        assert y == b.word + y[|b.word|..];
        LexLessExtend(ms[0].word, b.word, x[|ms[0].word|..], y[|b.word|..]);
      }
      AscendingConcat(head, rest);
    }
  }

  /** The query: look up the tree for the total length and enumerate only
      when it exists. Every word it yields has the total length, fits the
      segments and is a complete path of that tree. */
  function Query(tries: Tries, pattern: seq<Segment>): (r: seq<string>)
    ensures forall w | w in r ::
      && |w| == TotalLength(pattern) && Fits(pattern, 0, w)
      && TotalLength(pattern) in tries && IsPath(tries[TotalLength(pattern)], w)
  {
    var total := TotalLength(pattern);
    if total in tries then
      var r := Words(pattern, tries[total], 0, "");
      WordsSound(pattern, tries[total], 0, "");
      assert forall w | w in r :: w[0..] == w && Fits(pattern, 0, w) && |w| == total by {
        forall w | w in r ensures w[0..] == w && Fits(pattern, 0, w) && |w| == total {
          assert w[0..] == w;
          FitsLength(pattern, 0, w);
          assert pattern[0..] == pattern;
        }
      }
      r
    else []
  }

  /** End to end: over the index that loadTries builds from `wordList`, the
      query yields exactly the listed words of two letters or more that fit
      the pattern segment by segment, and none when the pattern is empty. */
  lemma QueryFindsListedWords(wordList: seq<string>, pattern: seq<Segment>, w: string)
    ensures w in Query(Loaded(wordList), pattern) <==>
      |pattern| > 0 && Fits(pattern, 0, w) && 2 <= |w| && w in wordList
  {
    var tries := Loaded(wordList);
    var total := TotalLength(pattern);
    LoadedWords(wordList, w);
    if w in Query(tries, pattern) {
      assert |pattern| > 0;
    }
    if |pattern| > 0 && Fits(pattern, 0, w) && 2 <= |w| && w in wordList {
      FitsLength(pattern, 0, w);
      assert pattern[0..] == pattern;
      WordsComplete(pattern, tries[total], 0, "", w);
      assert "" + w == w;
    }
  }

  /** With sorted pools the query yields each word once, in ascending order. */
  lemma QueryAscending(tries: Tries, pattern: seq<Segment>)
    requires PoolsSorted(pattern)
    ensures Ascending(Query(tries, pattern))
    ensures forall a, b | 0 <= a < b < |Query(tries, pattern)| :: Query(tries, pattern)[a] != Query(tries, pattern)[b]
  {
    var total := TotalLength(pattern);
    if total in tries {
      WordsAscending(pattern, tries[total], 0, "");
    }
    AscendingDistinct(Query(tries, pattern));
  }
}
