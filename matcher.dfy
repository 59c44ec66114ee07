/** The letter-pool matcher, nextNodes: from a tree node and a pool of
    letters, every ordered choice of exactly `remaining` pool letters that
    stays on tree edges, with the word so far and the node reached. */
module Matcher {

  import opened Trie
  import opened Letters

  /** One yielded pair: the word so far and the node it reached. */
  datatype Match = Match(word: string, node: Node)

  function NextNodes(word: string, node: Node, letters: seq<char>, remaining: nat): seq<Match>
    decreases remaining, |letters| + 1
  {
    if remaining == 0 then [Match(word, node)]
    else Branches(word, node, letters, remaining, 0)
  }

  /** The for loop over pool positions, from position `i` to the end. */
  function Branches(word: string, node: Node, letters: seq<char>, remaining: nat, i: nat): seq<Match>
    requires 0 < remaining && i <= |letters|
    decreases remaining, |letters| - i, 1
  {
    if i == |letters| then []
    else Branch(word, node, letters, remaining, i) + Branches(word, node, letters, remaining, i + 1)
  }

  /** Position `i` repeats the letter just before it, so it is not branched on. */
  predicate Skipped(letters: seq<char>, i: nat)
    requires i < |letters|
  {
    i > 0 && letters[i] == letters[i - 1]
  }

  /** One round of that loop: consume the letter at position `i` when it is
      not a repeat and the node has an edge for it. */
  function Branch(word: string, node: Node, letters: seq<char>, remaining: nat, i: nat): seq<Match>
    requires 0 < remaining && i < |letters|
    decreases remaining, |letters| - i, 0
  {
    var letter := letters[i];
    if Skipped(letters, i) || letter !in node.children then []
    else NextNodes(word + [letter], node.children[letter], RemoveAt(letters, i), remaining - 1)
  }

  /** `m` is `word` followed by `remaining` letters drawn from the pool
      without reuse, and `m.node` is where those letters lead from `node`. */
  predicate Extends(word: string, node: Node, letters: seq<char>, remaining: nat, m: Match)
  {
    && |m.word| == |word| + remaining
    && m.word[..|word|] == word
    && multiset(m.word[|word|..]) <= multiset(letters)
    && Walk(node, m.word[|word|..]) == Some(m.node)
  }

  /** Soundness: every yielded pair is an extension of `word` by
      `remaining` pool letters along tree edges. */
  lemma {:induction false} NextNodesSound(word: string, node: Node, letters: seq<char>, remaining: nat)
    ensures forall m | m in NextNodes(word, node, letters, remaining) :: Extends(word, node, letters, remaining, m)
    decreases remaining, |letters| + 1
  {
    if remaining > 0 {
      BranchesSound(word, node, letters, remaining, 0);
    }
  }

  lemma {:induction false} BranchesSound(word: string, node: Node, letters: seq<char>, remaining: nat, i: nat)
    requires 0 < remaining && i <= |letters|
    ensures forall m | m in Branches(word, node, letters, remaining, i) :: Extends(word, node, letters, remaining, m)
    decreases remaining, |letters| - i, 1
  {
    if i < |letters| {
      BranchSound(word, node, letters, remaining, i);
      BranchesSound(word, node, letters, remaining, i + 1);
    }
  }

  /** What branch `i` yields extends `word` first by the letter at `i`, and
      only when `i` is not a repeat. */
  lemma {:induction false} BranchSound(word: string, node: Node, letters: seq<char>, remaining: nat, i: nat)
    requires 0 < remaining && i < |letters|
    ensures forall m | m in Branch(word, node, letters, remaining, i) ::
      Extends(word, node, letters, remaining, m) && m.word[|word|] == letters[i] && !Skipped(letters, i)
    decreases remaining, |letters| - i, 0
  {
    var c := letters[i];
    if !Skipped(letters, i) && c in node.children {
      var child, pool := node.children[c], RemoveAt(letters, i);
      var word' := word + [c];
      NextNodesSound(word', child, pool, remaining - 1);
      forall m | m in Branch(word, node, letters, remaining, i)
        ensures Extends(word, node, letters, remaining, m) && m.word[|word|] == c
      {
        ExtendsByLetter(word, node, letters, remaining, i, m);
      }
    }
  }

  /** A pair extending `word + [c]` from the child for `c`, with the pool
      short of that `c`, extends `word` from `node` with the whole pool. */
  lemma ExtendsByLetter(word: string, node: Node, letters: seq<char>, remaining: nat, i: nat, m: Match)
    requires 0 < remaining && i < |letters| && letters[i] in node.children
    requires Extends(word + [letters[i]], node.children[letters[i]], RemoveAt(letters, i), remaining - 1, m)
    ensures Extends(word, node, letters, remaining, m) && m.word[|word|] == letters[i]
  {
    var c := letters[i];
    var word' := word + [c];
    var t := m.word[|word'|..];
    var s := m.word[|word|..];
    assert m.word[..|word|] == word'[..|word|] == word;
    assert m.word[|word|] == word'[|word|] == c;
    assert s == [c] + t;
    assert multiset(s) == multiset{c} + multiset(t);
    assert c in multiset(letters);
    assert Walk(node, s) == Walk(node.children[c], t);
  }

  /** Whatever branch `i` yields, the loop from an earlier position `j`
      yields too. */
  lemma {:induction false} BranchInBranches(word: string, node: Node, letters: seq<char>, remaining: nat, j: nat, i: nat)
    requires 0 < remaining && j <= i < |letters|
    ensures forall m | m in Branch(word, node, letters, remaining, i) :: m in Branches(word, node, letters, remaining, j)
    decreases i - j
  {
    if j < i {
      BranchInBranches(word, node, letters, remaining, j + 1, i);
    }
  }

  /** Completeness: every string of pool letters that is a path from `node`
      is yielded, with the node it reaches. The pool need not be sorted:
      a skipped position repeats its predecessor, and consuming either of
      the two leaves the same pool. */
  lemma {:induction false} NextNodesComplete(word: string, node: Node, letters: seq<char>, s: string)
    requires multiset(s) <= multiset(letters) && IsPath(node, s)
    ensures Match(word + s, Walk(node, s).value) in NextNodes(word, node, letters, |s|)
    decreases |s|
  {
    if s == [] {
      assert word + s == word;
    } else {
      var c := s[0];
      assert s == [c] + s[1..];
      assert multiset(s) == multiset{c} + multiset(s[1..]);
      assert c in multiset(letters);
      var i := FirstIndex(letters, c);
      assert !Skipped(letters, i);
      var child, pool := node.children[c], RemoveAt(letters, i);
      assert multiset(s[1..]) <= multiset(pool);
      NextNodesComplete(word + [c], child, pool, s[1..]);
      assert word + [c] + s[1..] == word + s;
      assert Walk(node, s) == Walk(child, s[1..]);
      BranchInBranches(word, node, letters, |s|, 0, i);
    }
  }

  /** A pool holds too few letters: nothing is yielded. */
  lemma NextNodesShortPool(word: string, node: Node, letters: seq<char>, remaining: nat)
    requires |letters| < remaining
    ensures NextNodes(word, node, letters, remaining) == []
  {
    var r := NextNodes(word, node, letters, remaining);
    if r != [] {
      NextNodesSound(word, node, letters, remaining);
      assert Extends(word, node, letters, remaining, r[0]);
      SubMultisetSize(r[0].word[|word|..], letters);
    }
  }

  /** With nothing left to pick, the one pair yielded is the unchanged word
      and node; with letters left to pick, that pair is never the result. */
  lemma NextNodesDone(word: string, node: Node, letters: seq<char>, remaining: nat)
    ensures NextNodes(word, node, letters, remaining) == [Match(word, node)] <==> remaining == 0
  {
    var r := NextNodes(word, node, letters, remaining);
    NextNodesSound(word, node, letters, remaining);
    if remaining > 0 && r != [] {
      assert Extends(word, node, letters, remaining, r[0]);
      assert r[0] != Match(word, node);
    }
  }

  /** The words of the pairs are in strictly ascending order. */
  predicate AscendingMatches(ms: seq<Match>)
  {
    forall a, b :: 0 <= a < b < |ms| ==> LexLess(ms[a].word, ms[b].word)
  }

  lemma AscendingMatchesConcat(xs: seq<Match>, ys: seq<Match>)
    requires AscendingMatches(xs) && AscendingMatches(ys)
    requires forall x, y | x in xs && y in ys :: LexLess(x.word, y.word)
    ensures AscendingMatches(xs + ys)
  {
    var zs := xs + ys;
    forall a, b | 0 <= a < b < |zs| ensures LexLess(zs[a].word, zs[b].word) {
      if a < |xs| && |xs| <= b {
        assert zs[a] in xs && zs[b] in ys;
      }
    }
  }

  /** On a sorted pool, whatever the loop yields from position `i > 0` on
      starts its extension with a letter above the one at `i - 1`. */
  lemma {:induction false} BranchesAbove(word: string, node: Node, letters: seq<char>, remaining: nat, i: nat)
    requires Sorted(letters) && 0 < remaining && 0 < i <= |letters|
    ensures forall m | m in Branches(word, node, letters, remaining, i) ::
      |word| < |m.word| && letters[i - 1] < m.word[|word|]
    decreases |letters| - i
  {
    if i < |letters| {
      BranchSound(word, node, letters, remaining, i);
      BranchesAbove(word, node, letters, remaining, i + 1);
    }
  }

  /** Duplicate suppression: on a sorted pool the pairs come out in strictly
      ascending order of their words, so no word is yielded twice, even
      when the pool repeats a letter. */
  lemma {:induction false} NextNodesAscending(word: string, node: Node, letters: seq<char>, remaining: nat)
    requires Sorted(letters)
    ensures AscendingMatches(NextNodes(word, node, letters, remaining))
    ensures forall a, b | 0 <= a < b < |NextNodes(word, node, letters, remaining)| ::
      NextNodes(word, node, letters, remaining)[a].word != NextNodes(word, node, letters, remaining)[b].word
    decreases remaining, |letters| + 1
  {
    var r := NextNodes(word, node, letters, remaining);
    if remaining > 0 {
      BranchesAscending(word, node, letters, remaining, 0);
    }
    forall a, b | 0 <= a < b < |r| ensures r[a].word != r[b].word {
      LexLessIrreflexive(r[a].word);
    }
  }

  lemma {:induction false} BranchesAscending(word: string, node: Node, letters: seq<char>, remaining: nat, i: nat)
    requires Sorted(letters) && 0 < remaining && i <= |letters|
    ensures AscendingMatches(Branches(word, node, letters, remaining, i))
    decreases remaining, |letters| - i, 1
  {
    if i < |letters| {
      var here := Branch(word, node, letters, remaining, i);
      var rest := Branches(word, node, letters, remaining, i + 1);
      var c := letters[i];
      if !Skipped(letters, i) && c in node.children {
        RemoveAtSorted(letters, i);
        NextNodesAscending(word + [c], node.children[c], RemoveAt(letters, i), remaining - 1);
      }
      BranchesAscending(word, node, letters, remaining, i + 1);
      BranchSound(word, node, letters, remaining, i);
      BranchesSound(word, node, letters, remaining, i + 1);
      BranchesAbove(word, node, letters, remaining, i + 1);
      forall x, y | x in here && y in rest ensures LexLess(x.word, y.word) {
        assert x.word[..|word|] == word == y.word[..|word|];
        LexLessAt(x.word, y.word, |word|);
      }
      AscendingMatchesConcat(here, rest);
    }
  }
}
