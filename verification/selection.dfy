/**
  Selection of the highest-scoring sentences, with the observable result of
  heapq.nlargest: a stable sort by descending score, cut after n entries.
 */
module Selection {
  import opened Scores

  /** Every element has a score. */
  predicate Scored(ks: seq<string>, sc: map<string, nat>) {
    forall k :: k in ks ==> k in sc
  }

  /** Scores never increase along the sequence. */
  ghost predicate Descending(ks: seq<string>, sc: map<string, nat>)
    requires Scored(ks, sc)
  {
    forall i, j :: 0 <= i < j < |ks| ==> sc[ks[i]] >= sc[ks[j]]
  }

  function Min(a: nat, b: nat): nat { if a <= b then a else b }

  /**
    Inserts `x` into `s` in front of the first element whose score is not
    greater than its own, so that `x` precedes the elements it ties with.
   */
  function Insert(x: string, s: seq<string>, sc: map<string, nat>): (r: seq<string>)
    requires x in sc && Scored(s, sc)
    ensures |r| == |s| + 1
    ensures multiset(r) == multiset(s) + multiset{x}
    ensures r[0] == x || (|s| > 0 && r[0] == s[0])
  {
    if s == [] then [x]
    else if sc[s[0]] > sc[x] then
      assert s == [s[0]] + s[1..];
      [s[0]] + Insert(x, s[1..], sc)
    else [x] + s
  }

  lemma InsertScored(x: string, s: seq<string>, sc: map<string, nat>)
    requires x in sc && Scored(s, sc)
    ensures Scored(Insert(x, s, sc), sc)
  {
    var r := Insert(x, s, sc);
    forall k | k in r ensures k in sc {
      assert k in multiset(r);
    }
  }

  lemma {:induction false} InsertDescending(x: string, s: seq<string>, sc: map<string, nat>)
    requires x in sc && Scored(s, sc) && Descending(s, sc)
    ensures Scored(Insert(x, s, sc), sc) && Descending(Insert(x, s, sc), sc)
  {
    InsertScored(x, s, sc);
    if s != [] && sc[s[0]] > sc[x] {
      var rest := Insert(x, s[1..], sc);
      InsertDescending(x, s[1..], sc);
      assert sc[s[0]] >= sc[rest[0]];
      assert Insert(x, s, sc) == [s[0]] + rest;
    }
  }

  lemma {:induction false} InsertDistinct(x: string, s: seq<string>, sc: map<string, nat>)
    requires x in sc && Scored(s, sc) && Distinct(s) && x !in s
    ensures Distinct(Insert(x, s, sc))
  {
    if s != [] && sc[s[0]] > sc[x] {
      var rest := Insert(x, s[1..], sc);
      InsertDistinct(x, s[1..], sc);
      assert s[0] !in multiset(rest);
      assert Insert(x, s, sc) == [s[0]] + rest;
    }
  }

  /** A stable sort by descending score, as sorted(..., reverse=True). */
  function SortDescending(ks: seq<string>, sc: map<string, nat>): (r: seq<string>)
    requires Scored(ks, sc)
    ensures |r| == |ks| && multiset(r) == multiset(ks)
    ensures Scored(r, sc) && Descending(r, sc)
  {
    if ks == [] then []
    else
      assert ks == [ks[0]] + ks[1..];
      InsertDescending(ks[0], SortDescending(ks[1..], sc), sc);
      Insert(ks[0], SortDescending(ks[1..], sc), sc)
  }

  lemma {:induction false} SortDescendingDistinct(ks: seq<string>, sc: map<string, nat>)
    requires Scored(ks, sc) && Distinct(ks)
    ensures Distinct(SortDescending(ks, sc))
  {
    if ks != [] {
      var rest := SortDescending(ks[1..], sc);
      SortDescendingDistinct(ks[1..], sc);
      assert ks[0] !in multiset(ks[1..]);
      InsertDistinct(ks[0], rest, sc);
    }
  }

  /** The elements of `ks` whose score is `v`, in their order in `ks`. */
  function WithScore(ks: seq<string>, sc: map<string, nat>, v: nat): seq<string>
  {
    if ks == [] then []
    else (if ks[0] in sc && sc[ks[0]] == v then [ks[0]] else []) + WithScore(ks[1..], sc, v)
  }

  lemma WithScoreCons(h: string, rest: seq<string>, sc: map<string, nat>, v: nat)
    ensures WithScore([h] + rest, sc, v) == (if h in sc && sc[h] == v then [h] else []) + WithScore(rest, sc, v)
  {
    assert ([h] + rest)[0] == h && ([h] + rest)[1..] == rest;
  }

  lemma SwapDisjointHeads(a: seq<string>, b: seq<string>, tail: seq<string>)
    requires a == [] || b == []
    ensures a + (b + tail) == b + (a + tail)
  {
    if a == [] {
      assert a + (b + tail) == b + tail;
    } else {
      assert a + (b + tail) == a + tail;
    }
  }

  lemma {:induction false} InsertWithScore(x: string, s: seq<string>, sc: map<string, nat>, v: nat)
    requires x in sc && Scored(s, sc)
    ensures WithScore(Insert(x, s, sc), sc, v) == (if sc[x] == v then [x] else []) + WithScore(s, sc, v)
  {
    if s != [] && sc[s[0]] > sc[x] {
      assert Insert(x, s, sc) == [s[0]] + Insert(x, s[1..], sc);
      assert s == [s[0]] + s[1..];
      InsertWithScore(x, s[1..], sc, v);
      WithScoreCons(s[0], Insert(x, s[1..], sc), sc, v);
      WithScoreCons(s[0], s[1..], sc, v);
      SwapDisjointHeads(if sc[s[0]] == v then [s[0]] else [], if sc[x] == v then [x] else [], WithScore(s[1..], sc, v));
    } else {
      WithScoreCons(x, s, sc, v);
    }
  }

  /** Within every score the sort keeps the original order: the sort is stable. */
  lemma {:induction false} SortDescendingStable(ks: seq<string>, sc: map<string, nat>, v: nat)
    requires Scored(ks, sc)
    ensures WithScore(SortDescending(ks, sc), sc, v) == WithScore(ks, sc, v)
  {
    if ks != [] {
      SortDescendingStable(ks[1..], sc, v);
      InsertWithScore(ks[0], SortDescending(ks[1..], sc), sc, v);
    }
  }

  lemma {:induction false} WithScorePrefix(ks: seq<string>, m: nat, sc: map<string, nat>, v: nat)
    requires Scored(ks, sc) && m <= |ks|
    ensures WithScore(ks[..m], sc, v) <= WithScore(ks, sc, v)
  {
    if m > 0 {
      WithScorePrefix(ks[1..], m - 1, sc, v);
      assert ks[..m][0] == ks[0] && ks[..m][1..] == ks[1..][..m - 1];
    }
  }

  /**
    heapq.nlargest(n, table, key=table.get): the n keys of highest score,
    highest first; all keys when n is at least their number.
   */
  function NLargest(n: nat, t: ScoreTable): (r: seq<string>)
    requires t.Valid()
    ensures |r| == Min(n, |t.keys|)
    ensures forall k :: k in r ==> k in t.keys
    ensures Distinct(r)
    ensures Scored(r, t.scores) && Descending(r, t.scores)
  {
    var sorted := SortDescending(t.keys, t.scores);
    SortDescendingDistinct(t.keys, t.scores);
    assert forall k :: k in sorted[..Min(n, |t.keys|)] ==> k in multiset(sorted);
    sorted[..Min(n, |t.keys|)]
  }

  /** When n is at least the number of keys, every key is selected. */
  lemma NLargestAll(n: nat, t: ScoreTable)
    requires t.Valid() && n >= |t.keys|
    ensures multiset(NLargest(n, t)) == multiset(t.keys)
  {
    var sorted := SortDescending(t.keys, t.scores);
    assert sorted[..|sorted|] == sorted;
  }

  /** Every selected key scores at least as much as every key left out. */
  lemma NLargestTopScores(n: nat, t: ScoreTable, x: string, y: string)
    requires t.Valid()
    requires x in NLargest(n, t) && y in t.keys && y !in NLargest(n, t)
    ensures t.scores[x] >= t.scores[y]
  {
    var sorted := SortDescending(t.keys, t.scores);
    var m := Min(n, |t.keys|);
    assert y in multiset(sorted);
    var j :| 0 <= j < |sorted| && sorted[j] == y;
    var i :| 0 <= i < m && sorted[i] == x;
  }

  /**
    Among keys of equal score the selection follows the table's order: for
    every score, the selected keys of that score are a leading part of the
    table's keys of that score.
   */
  lemma NLargestTiesInTableOrder(n: nat, t: ScoreTable, v: nat)
    requires t.Valid()
    ensures WithScore(NLargest(n, t), t.scores, v) <= WithScore(t.keys, t.scores, v)
  {
    var sorted := SortDescending(t.keys, t.scores);
    WithScorePrefix(sorted, Min(n, |t.keys|), t.scores, v);
    SortDescendingStable(t.keys, t.scores, v);
  }

  /** Asking for more sentences extends the selection: a smaller request gives a prefix. */
  lemma NLargestGrows(n1: nat, n2: nat, t: ScoreTable)
    requires t.Valid() && n1 <= n2
    ensures NLargest(n1, t) <= NLargest(n2, t)
  {
  }
}
