/** The prefix tree of the dictionary index: one edge per letter and no
    end-of-word flag. Whether a path spells a word is decided by its depth
    inside the tree for one word length. */
module Trie {

  datatype Option<T> = None | Some(value: T)

  datatype Node = Node(children: map<char, Node>)

  /** The fresh, childless node that loadTries creates for a new root or child. */
  const Empty := Node(map[])

  /** The node reached by following the letters of `s` from `n`, when every
      edge on the way exists. */
  function Walk(n: Node, s: string): Option<Node>
  {
    if s == [] then Some(n)
    else if s[0] in n.children then Walk(n.children[s[0]], s[1..])
    else None
  }

  predicate IsPath(n: Node, s: string)
  {
    Walk(n, s).Some?
  }

  /** Following `s + t` is following `s`, then `t` from where `s` ended. */
  lemma {:induction false} WalkAppend(n: Node, s: string, t: string)
    ensures Walk(n, s + t) == if Walk(n, s).Some? then Walk(Walk(n, s).value, t) else None
    decreases |s|
  {
    if s == [] {
      assert s + t == t;
    } else {
      assert (s + t)[0] == s[0] && (s + t)[1..] == s[1..] + t;
      if s[0] in n.children {
        WalkAppend(n.children[s[0]], s[1..], t);
      }
    }
  }

  /** A fresh node has no edge: the empty path is its only path. */
  lemma EmptyPaths(s: string)
    ensures IsPath(Empty, s) <==> s == []
  {
  }

  /** Walks `w` from `n`, creating each missing child on the way (the inner
      loop of loadTries), and gives back the updated node. */
  function Insert(n: Node, w: string): Node
    decreases |w|
  {
    if w == [] then n
    else
      var child := if w[0] in n.children then n.children[w[0]] else Empty;
      Node(n.children[w[0] := Insert(child, w[1..])])
  }

  /** Inserting `w` adds exactly the prefixes of `w` to the paths of `n`. */
  lemma {:induction false} InsertPaths(n: Node, w: string, s: string)
    ensures IsPath(Insert(n, w), s) <==> IsPath(n, s) || s <= w
    decreases |w|
  {
    if w != [] && s != [] {
      var child := if w[0] in n.children then n.children[w[0]] else Empty;
      if s[0] == w[0] {
        InsertPaths(child, w[1..], s[1..]);
        assert s <= w <==> s[1..] <= w[1..];
        EmptyPaths(s[1..]);
      } else {
        assert !(s <= w);
      }
    }
  }
}
