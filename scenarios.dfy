/** Worked queries: what the engine yields for small dictionaries, derived
    from the general theorems about the query rather than by unfolding it. */
module Scenarios {

  import opened Letters
  import opened Dictionary
  import opened Composer

  /** An ascending list of copies of `a` that holds `a` is `[a]`. */
  lemma AscendingSingle(r: seq<string>, a: string)
    requires Ascending(r) && a in r
    requires forall k | 0 <= k < |r| :: r[k] == a
    ensures r == [a]
  {
    if |r| > 1 {
      assert r[0] == r[1];
      LexLessIrreflexive(a);
      assert false;
    }
  }

  /** An ascending list of copies of `a` and `b`, `a` before `b`, that holds
      both is `[a, b]`. */
  lemma AscendingPair(r: seq<string>, a: string, b: string)
    requires Ascending(r) && LexLess(a, b) && a in r && b in r
    requires forall k | 0 <= k < |r| :: r[k] == a || r[k] == b
    ensures r == [a, b]
  {
    if |r| > 2 {
      assert r[0] == r[1] || r[1] == r[2] || r[0] == r[2];
      LexLessIrreflexive(a);
      LexLessIrreflexive(b);
      assert false;
    }
    LexLessIrreflexive(a);
    LexLessAsymmetric(a, b);
    assert |r| == 2;
    assert LexLess(r[0], r[1]);
  }

  /** When exactly one listed word fits the pattern, it is the whole result. */
  lemma OneMatch(ws: seq<string>, p: seq<Segment>, a: string)
    requires PoolsSorted(p) && |p| > 0
    requires forall w | w in ws && 2 <= |w| && Fits(p, 0, w) :: w == a
    requires a in ws && Fits(p, 0, a) && 2 <= |a|
    ensures Query(Loaded(ws), p) == [a]
  {
    var r := Query(Loaded(ws), p);
    QueryAscending(Loaded(ws), p);
    QueryFindsListedWords(ws, p, a);
    forall k | 0 <= k < |r| ensures r[k] == a {
      QueryFindsListedWords(ws, p, r[k]);
    }
    AscendingSingle(r, a);
  }

  /** When exactly two listed words fit, both come out, in ascending order. */
  lemma TwoMatches(ws: seq<string>, p: seq<Segment>, a: string, b: string)
    requires PoolsSorted(p) && |p| > 0
    requires forall w | w in ws && 2 <= |w| && Fits(p, 0, w) :: w == a || w == b
    requires a in ws && Fits(p, 0, a) && 2 <= |a|
    requires b in ws && Fits(p, 0, b) && 2 <= |b|
    requires LexLess(a, b)
    ensures Query(Loaded(ws), p) == [a, b]
  {
    var r := Query(Loaded(ws), p);
    QueryAscending(Loaded(ws), p);
    QueryFindsListedWords(ws, p, a);
    QueryFindsListedWords(ws, p, b);
    forall k | 0 <= k < |r| ensures r[k] == a || r[k] == b {
      QueryFindsListedWords(ws, p, r[k]);
    }
    AscendingPair(r, a, b);
  }

  /** When no listed word fits, nothing comes out. */
  lemma NoMatch(ws: seq<string>, p: seq<Segment>)
    requires forall w | w in ws && 2 <= |w| :: !Fits(p, 0, w)
    ensures Query(Loaded(ws), p) == []
  {
    var r := Query(Loaded(ws), p);
    if r != [] {
      QueryFindsListedWords(ws, p, r[0]);
    }
  }

  /** Of cat, act and car, the pattern `3:act` admits act and cat only. */
  lemma CatActFits(w: string)
    ensures Fits([Segment(3, "act")], 0, "act") && Fits([Segment(3, "act")], 0, "cat")
    ensures w in ["cat", "act", "car"] && Fits([Segment(3, "act")], 0, w) ==> w == "act" || w == "cat"
  {
    assert "act"[..3] == "act" && "act"[3..] == [];
    assert "cat"[..3] == "cat" && "cat"[3..] == [];
    assert "car"[..3] == "car";
    assert multiset("car")['r'] == 1 && multiset("act")['r'] == 0;
  }

  /** Dictionary cat, act, car and one segment of three letters from a, c, t:
      act then cat; car needs an r the pool lacks. */
  lemma CatAct()
    ensures Query(Loaded(["cat", "act", "car"]), [Segment(3, "act")]) == ["act", "cat"]
  {
    var ws, p := ["cat", "act", "car"], [Segment(3, "act")];
    forall w | w in ws && 2 <= |w| && Fits(p, 0, w) ensures w == "act" || w == "cat" {
      CatActFits(w);
    }
    CatActFits("act");
    assert PoolsSorted(p);
    assert LexLess("act", "cat");
    TwoMatches(ws, p, "act", "cat");
  }

  /** Dictionary bee and the pool b, e, e: bee once, not once per e tile. */
  lemma Bee()
    ensures Query(Loaded(["bee"]), [Segment(3, "bee")]) == ["bee"]
  {
    var p := [Segment(3, "bee")];
    assert "bee"[..3] == "bee" && "bee"[3..] == [];
    assert Fits(p, 0, "bee");
    assert PoolsSorted(p);
    OneMatch(["bee"], p, "bee");
  }

  /** Two segments a, b and c, d chained into one four-letter lookup: the
      two-letter words ab and cd alone give nothing, since each half being a
      word does not make the whole one. */
  lemma TwoSegmentsHalves()
    ensures Query(Loaded(["ab", "cd"]), [Segment(2, "ab"), Segment(2, "cd")]) == []
  {
    var p := [Segment(2, "ab"), Segment(2, "cd")];
    assert "ab"[..2] == "ab" && "ab"[2..] == [];
    assert "cd"[..2] == "cd" && "cd"[2..] == [];
    assert !Fits(p, 0, "ab") && !Fits(p, 0, "cd");
    NoMatch(["ab", "cd"], p);
  }

  /** Of ab, cd and abcd, the segments `ab` and `cd` admit abcd only. */
  lemma AbcdFits(w: string)
    ensures Fits([Segment(2, "ab"), Segment(2, "cd")], 0, "abcd")
    ensures w in ["ab", "cd", "abcd"] && Fits([Segment(2, "ab"), Segment(2, "cd")], 0, w) ==> w == "abcd"
  {
    assert "ab"[..2] == "ab" && "ab"[2..] == [];
    assert "cd"[..2] == "cd" && "cd"[2..] == [];
    assert "abcd"[..2] == "ab" && "abcd"[2..] == "cd";
  }

  /** Of ab, cd and abcd, only abcd fits the segments `ab` and `cd`. */
  lemma AbcdOnly()
    ensures forall w | w in ["ab", "cd", "abcd"] && Fits([Segment(2, "ab"), Segment(2, "cd")], 0, w) :: w == "abcd"
  {
    forall w | w in ["ab", "cd", "abcd"] && Fits([Segment(2, "ab"), Segment(2, "cd")], 0, w)
      ensures w == "abcd"
    {
      AbcdFits(w);
    }
  }

  /** The same pattern once abcd is listed: abcd is found. */
  lemma TwoSegmentsWhole()
    ensures Query(Loaded(["ab", "cd", "abcd"]), [Segment(2, "ab"), Segment(2, "cd")]) == ["abcd"]
  {
    var ws, p := ["ab", "cd", "abcd"], [Segment(2, "ab"), Segment(2, "cd")];
    AbcdOnly();
    AbcdFits("abcd");
    assert PoolsSorted(p);
    OneMatch(ws, p, "abcd");
  }
}
