/**
 * The final ordering of `screen_resumes` (line 222): Python's
 * `list.sort(key=score, reverse=True)`, which is stable, so results with
 * equal scores keep the order in which they were produced.
 */
module Ranking {
  import opened Scoring

  /** Best score first. */
  ghost predicate SortedByScore(s: seq<ScoreResult>) {
    forall i, j :: 0 <= i < j < |s| ==> s[i].score >= s[j].score
  }

  /** The results with score `v`, in their order in `s`. */
  function WithScore(s: seq<ScoreResult>, v: int): (r: seq<ScoreResult>)
    ensures |r| <= |s|
    decreases |s|
  {
    if s == [] then []
    else (if s[0].score == v then [s[0]] else []) + WithScore(s[1..], v)
  }

  /**
   * Stability, stated per score: for every score, the results with that
   * score appear in `r` in the same order as in `s`.
   */
  ghost predicate SameOrderPerScore(r: seq<ScoreResult>, s: seq<ScoreResult>) {
    forall v :: WithScore(r, v) == WithScore(s, v)
  }

  /** Puts `x`, which came before everything in `t`, in front of the first result of `t` scoring no more than it. */
  function Insert(x: ScoreResult, t: seq<ScoreResult>): (r: seq<ScoreResult>)
    ensures |r| == |t| + 1
    decreases |t|
  {
    if t == [] || x.score >= t[0].score then [x] + t
    else [t[0]] + Insert(x, t[1..])
  }

  /** `sorted(s, key=lambda r: r['score'], reverse=True)`. */
  function SortByScore(s: seq<ScoreResult>): (r: seq<ScoreResult>)
    ensures |r| == |s|
    decreases |s|
  {
    if s == [] then [] else Insert(s[0], SortByScore(s[1..]))
  }

  lemma {:induction false} InsertPermutes(x: ScoreResult, t: seq<ScoreResult>)
    ensures multiset(Insert(x, t)) == multiset(t) + multiset{x}
    decreases |t|
  {
    if t != [] && x.score < t[0].score {
      InsertPermutes(x, t[1..]);
      assert t == [t[0]] + t[1..];
    }
  }

  /** The sort only reorders: every result is kept, as often as it occurs. */
  lemma {:induction false} SortByScorePermutes(s: seq<ScoreResult>)
    ensures multiset(SortByScore(s)) == multiset(s)
    decreases |s|
  {
    if s != [] {
      SortByScorePermutes(s[1..]);
      InsertPermutes(s[0], SortByScore(s[1..]));
      assert s == [s[0]] + s[1..];
    }
  }

  /** Inserting below a common upper bound keeps every score below it. */
  lemma {:induction false} InsertBounded(x: ScoreResult, t: seq<ScoreResult>, c: int)
    requires x.score <= c
    requires forall k :: 0 <= k < |t| ==> t[k].score <= c
    ensures forall k :: 0 <= k < |Insert(x, t)| ==> Insert(x, t)[k].score <= c
    decreases |t|
  {
    if t != [] && x.score < t[0].score {
      InsertBounded(x, t[1..], c);
    }
  }

  lemma {:induction false} InsertSorted(x: ScoreResult, t: seq<ScoreResult>)
    requires SortedByScore(t)
    ensures SortedByScore(Insert(x, t))
    decreases |t|
  {
    if t != [] && x.score < t[0].score {
      InsertSorted(x, t[1..]);
      InsertBounded(x, t[1..], t[0].score);
    }
  }

  /** Picking the results of one score commutes with concatenation. */
  lemma {:induction false} WithScoreAppend(a: seq<ScoreResult>, b: seq<ScoreResult>, v: int)
    ensures WithScore(a + b, v) == WithScore(a, v) + WithScore(b, v)
    decreases |a|
  {
    if a != [] {
      WithScoreAppend(a[1..], b, v);
      assert (a + b)[1..] == a[1..] + b;
    } else {
      assert a + b == b;
    }
  }

  lemma {:induction false} InsertStable(x: ScoreResult, t: seq<ScoreResult>, v: int)
    ensures WithScore(Insert(x, t), v) == WithScore([x] + t, v)
    decreases |t|
  {
    if t != [] && x.score < t[0].score {
      var rest := Insert(x, t[1..]);
      var before, first, after := WithScore([x], v), WithScore([t[0]], v), WithScore(t[1..], v);
      assert WithScore(Insert(x, t), v) == first + WithScore(rest, v) by {
        assert Insert(x, t) == [t[0]] + rest;
        WithScoreAppend([t[0]], rest, v);
      }
      assert WithScore(rest, v) == before + after by {
        InsertStable(x, t[1..], v);
        WithScoreAppend([x], t[1..], v);
      }
      assert WithScore([x] + t, v) == before + (first + after) by {
        assert t == [t[0]] + t[1..];
        WithScoreAppend([x], t, v);
        WithScoreAppend([t[0]], t[1..], v);
      }
      // `x` scores less than `t[0]`, so at most one of the two has score `v`
      assert before == [] || first == [];
    } else {
      assert Insert(x, t) == [x] + t;
    }
  }

  /** The sort puts the best score first. */
  lemma {:induction false} SortByScoreSorted(s: seq<ScoreResult>)
    ensures SortedByScore(SortByScore(s))
    decreases |s|
  {
    if s != [] {
      SortByScoreSorted(s[1..]);
      InsertSorted(s[0], SortByScore(s[1..]));
    }
  }

  /** The sort is stable: equal scores keep their original order. */
  lemma {:induction false} SortByScoreStable(s: seq<ScoreResult>)
    ensures SameOrderPerScore(SortByScore(s), s)
    decreases |s|
  {
    if s != [] {
      SortByScoreStable(s[1..]);
      SortByScoreSorted(s[1..]);
      forall v ensures WithScore(SortByScore(s), v) == WithScore(s, v) {
        InsertStable(s[0], SortByScore(s[1..]), v);
        assert ([s[0]] + SortByScore(s[1..]))[1..] == SortByScore(s[1..]);
      }
    }
  }

  lemma {:induction false} WithScoreMembers(s: seq<ScoreResult>, v: int)
    ensures forall x :: x in WithScore(s, v) <==> x in s && x.score == v
    decreases |s|
  {
    if s != [] {
      WithScoreMembers(s[1..], v);
      assert s == [s[0]] + s[1..];
    }
  }

  /** Two best-first orders with the same per-score order start with the same result. */
  lemma HeadsEqual(a: seq<ScoreResult>, b: seq<ScoreResult>)
    requires a != [] && b != []
    requires SortedByScore(a) && SortedByScore(b)
    requires SameOrderPerScore(a, b)
    ensures a[0] == b[0]
  {
    var m, n := a[0].score, b[0].score;
    WithScoreMembers(a, m);
    WithScoreMembers(b, m);
    WithScoreMembers(a, n);
    WithScoreMembers(b, n);
    assert a[0] in WithScore(b, m);
    assert b[0] in WithScore(a, n);
    assert m == n;
    assert WithScore(a, m) == [a[0]] + WithScore(a[1..], m);
    assert WithScore(b, m) == [b[0]] + WithScore(b[1..], m);
    assert a[0] == WithScore(a, m)[0] == WithScore(b, m)[0] == b[0];
  }

  /** Dropping a common first result keeps the per-score order the same. */
  lemma TailsSameOrder(a: seq<ScoreResult>, b: seq<ScoreResult>)
    requires a != [] && b != [] && a[0] == b[0]
    requires SameOrderPerScore(a, b)
    ensures SameOrderPerScore(a[1..], b[1..])
  {
    forall v ensures WithScore(a[1..], v) == WithScore(b[1..], v) {
      var head := if a[0].score == v then [a[0]] else [];
      assert WithScore(a, v) == head + WithScore(a[1..], v);
      assert WithScore(b, v) == head + WithScore(b[1..], v);
      assert WithScore(a[1..], v) == WithScore(a, v)[|head|..];
      assert WithScore(b[1..], v) == WithScore(b, v)[|head|..];
    }
  }

  /** Two best-first orders with the same per-score order are the same sequence. */
  lemma {:induction false} SortedOrderUnique(a: seq<ScoreResult>, b: seq<ScoreResult>)
    requires SortedByScore(a) && SortedByScore(b)
    requires SameOrderPerScore(a, b)
    ensures a == b
    decreases |a|
  {
    // the first element of either has to appear in the other as well
    assert a != [] ==> WithScore(a, a[0].score) != [];
    assert b != [] ==> WithScore(b, b[0].score) != [];
    if a != [] && b != [] {
      HeadsEqual(a, b);
      TailsSameOrder(a, b);
      SortedOrderUnique(a[1..], b[1..]);
      assert a == [a[0]] + a[1..] && b == [b[0]] + b[1..];
    }
  }

  /**
   * The specification determines the sort: the only best-first reordering of
   * `s` that keeps equal scores in their original order is `SortByScore(s)`.
   */
  lemma SortByScoreUnique(s: seq<ScoreResult>, r: seq<ScoreResult>)
    requires SortedByScore(r) && SameOrderPerScore(r, s)
    ensures r == SortByScore(s)
  {
    SortByScoreSorted(s);
    SortByScoreStable(s);
    SortedOrderUnique(r, SortByScore(s));
  }
}
