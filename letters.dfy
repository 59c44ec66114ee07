/** Letter pools and the order in which matches come out. */
module Letters {

  /** A pool as the query driver hands it over: sorted, so that equal letters
      sit next to each other. */
  predicate Sorted(s: seq<char>)
  {
    forall i, j :: 0 <= i < j < |s| ==> s[i] <= s[j]
  }

  /** The pool left after consuming the letter at position `i`: one
      occurrence of that letter goes, everything else stays in its order. */
  function RemoveAt(s: seq<char>, i: nat): (r: seq<char>)
    requires i < |s|
    ensures |r| == |s| - 1
    ensures multiset(r) == multiset(s) - multiset{s[i]}
    ensures forall j :: 0 <= j < |r| ==> r[j] == if j < i then s[j] else s[j + 1]
  {
    assert s == s[..i] + [s[i]] + s[i + 1..];
    s[..i] + s[i + 1..]
  }

  /** Removing one letter keeps a sorted pool sorted. */
  lemma RemoveAtSorted(s: seq<char>, i: nat)
    requires i < |s| && Sorted(s)
    ensures Sorted(RemoveAt(s, i))
  {
    var r := RemoveAt(s, i);
    forall a, b | 0 <= a < b < |r| ensures r[a] <= r[b] {
      var a' := if a < i then a else a + 1;
      var b' := if b < i then b else b + 1;
      assert r[a] == s[a'] && r[b] == s[b'] && a' < b';
    }
  }

  /** The position of the first occurrence of `c` in `s`. */
  function FirstIndex(s: seq<char>, c: char): (i: nat)
    requires c in s
    ensures i < |s| && s[i] == c
    ensures forall j :: 0 <= j < i ==> s[j] != c
  {
    if s[0] == c then 0 else 1 + FirstIndex(s[1..], c)
  }

  /** A sub-multiset of a pool is no larger than the pool. */
  lemma {:induction false} SubMultisetSize(s: seq<char>, t: seq<char>)
    requires multiset(s) <= multiset(t)
    ensures |s| <= |t|
    decreases |s|
  {
    if s != [] {
      assert s == [s[0]] + s[1..];
      assert s[0] in multiset(t);
      var i := FirstIndex(t, s[0]);
      SubMultisetSize(s[1..], RemoveAt(t, i));
    }
  }

  /** Strict lexicographic order on strings, letter by letter. */
  predicate LexLess(a: string, b: string)
  {
    if a == [] then b != []
    else b != [] && (a[0] < b[0] || (a[0] == b[0] && LexLess(a[1..], b[1..])))
  }

  /** No string comes before itself. */
  lemma {:induction false} LexLessIrreflexive(a: string)
    ensures !LexLess(a, a)
  {
    if a != [] {
      LexLessIrreflexive(a[1..]);
    }
  }

  /** Of two different strings at most one order holds. */
  lemma {:induction false} LexLessAsymmetric(a: string, b: string)
    requires LexLess(a, b)
    ensures !LexLess(b, a)
  {
    if a != [] && a[0] == b[0] {
      LexLessAsymmetric(a[1..], b[1..]);
    }
  }

  /** Two strings that agree before position `n` and differ there are ordered
      by their letters at `n`. */
  lemma {:induction false} LexLessAt(a: string, b: string, n: nat)
    requires n < |a| && n < |b| && a[..n] == b[..n] && a[n] < b[n]
    ensures LexLess(a, b)
  {
    if n > 0 {
      assert a[0] == a[..n][0] && b[0] == b[..n][0];
      assert a[1..][..n - 1] == a[..n][1..] && b[1..][..n - 1] == b[..n][1..];
      LexLessAt(a[1..], b[1..], n - 1);
    }
  }

  /** Appending anything to two ordered strings of equal length keeps them
      ordered. */
  lemma {:induction false} LexLessExtend(a: string, b: string, u: string, v: string)
    requires LexLess(a, b) && |a| == |b|
    ensures LexLess(a + u, b + v)
  {
    assert (a + u)[0] == a[0] && (b + v)[0] == b[0];
    if a[0] == b[0] && !(a[0] < b[0]) {
      assert (a + u)[1..] == a[1..] + u && (b + v)[1..] == b[1..] + v;
      LexLessExtend(a[1..], b[1..], u, v);
    }
  }

  /** Strings in strictly ascending order, hence pairwise distinct. */
  predicate Ascending(ws: seq<string>)
  {
    forall a, b :: 0 <= a < b < |ws| ==> LexLess(ws[a], ws[b])
  }

  /** Two ascending lists, everything in the first below everything in the
      second, concatenate to an ascending list. */
  lemma AscendingConcat(xs: seq<string>, ys: seq<string>)
    requires Ascending(xs) && Ascending(ys)
    requires forall x, y | x in xs && y in ys :: LexLess(x, y)
    ensures Ascending(xs + ys)
  {
    var zs := xs + ys;
    forall a, b | 0 <= a < b < |zs| ensures LexLess(zs[a], zs[b]) {
      if a < |xs| && |xs| <= b {
        assert zs[a] in xs && zs[b] in ys;
      }
    }
  }

  /** A strictly ascending list repeats no string. */
  lemma AscendingDistinct(ws: seq<string>)
    requires Ascending(ws)
    ensures forall a, b :: 0 <= a < b < |ws| ==> ws[a] != ws[b]
  {
    forall a, b | 0 <= a < b < |ws| ensures ws[a] != ws[b] {
      LexLessIrreflexive(ws[a]);
    }
  }
}
