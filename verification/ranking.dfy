/**
 * Candidates of a nearest-neighbour search and the stable descending sort the
 * retriever applies to them (Python's `list.sort(key=score, reverse=True)`,
 * which keeps equal scores in their original order).
 */
module Ranking {

  /** One search hit: a document position and its similarity score. */
  datatype Candidate = Candidate(id: int, score: real)

  /** Scores never increase from left to right. */
  ghost predicate SortedDesc(s: seq<Candidate>) {
    forall i, j :: 0 <= i < j < |s| ==> s[i].score >= s[j].score
  }

  /** The candidates of `s` whose score is exactly `x`, in their order in `s`. */
  function WithScore(s: seq<Candidate>, x: real): (r: seq<Candidate>)
    ensures |r| <= |s|
  {
    if |s| == 0 then []
    else (if s[0].score == x then [s[0]] else []) + WithScore(s[1..], x)
  }

  /** The slice at `x` holds exactly the candidates of `s` that score `x`. */
  lemma {:induction false} WithScoreMembers(s: seq<Candidate>, x: real, c: Candidate)
    ensures c in WithScore(s, x) <==> c in s && c.score == x
    decreases |s|
  {
    if |s| > 0 {
      WithScoreMembers(s[1..], x, c);
      assert s == [s[0]] + s[1..];
    }
  }

  /** `r` lists the candidates of equal score in the same order as `s` does. */
  ghost predicate Stable(s: seq<Candidate>, r: seq<Candidate>) {
    forall x :: WithScore(r, x) == WithScore(s, x)
  }

  /** `a` is `b` with some elements left out, the rest in their order. */
  ghost predicate IsSubsequence(a: seq<Candidate>, b: seq<Candidate>)
    decreases |b|
  {
    |a| == 0 || (|b| > 0 && ((a[0] == b[0] && IsSubsequence(a[1..], b[1..])) || IsSubsequence(a, b[1..])))
  }

  lemma {:induction false} WithScoreAppend(a: seq<Candidate>, b: seq<Candidate>, x: real)
    ensures WithScore(a + b, x) == WithScore(a, x) + WithScore(b, x)
    decreases |a|
  {
    if |a| == 0 {
      assert a + b == b;
    } else {
      var head := if a[0].score == x then [a[0]] else [];
      assert (a + b)[0] == a[0];
      assert (a + b)[1..] == a[1..] + b;
      assert WithScore(a + b, x) == head + WithScore(a[1..] + b, x);
      WithScoreAppend(a[1..], b, x);
      assert WithScore(a, x) == head + WithScore(a[1..], x);
      assert head + (WithScore(a[1..], x) + WithScore(b, x)) == (head + WithScore(a[1..], x)) + WithScore(b, x);
    }
  }

  lemma WithScoreCons(c: Candidate, s: seq<Candidate>, x: real)
    ensures WithScore([c] + s, x) == (if c.score == x then [c] else []) + WithScore(s, x)
  {
    assert ([c] + s)[1..] == s;
  }

  /** Inserts `c` in front of the first candidate that does not score strictly more. */
  function Insert(c: Candidate, r: seq<Candidate>): (t: seq<Candidate>)
    ensures multiset(t) == multiset(r) + multiset{c}
  {
    if |r| == 0 || c.score >= r[0].score then [c] + r
    else
      assert r == [r[0]] + r[1..];
      [r[0]] + Insert(c, r[1..])
  }

  lemma {:induction false} InsertKeepsSorted(c: Candidate, r: seq<Candidate>)
    requires SortedDesc(r)
    ensures SortedDesc(Insert(c, r))
    decreases |r|
  {
    if |r| == 0 || c.score >= r[0].score {
    } else {
      InsertKeepsSorted(c, r[1..]);
      var t := Insert(c, r[1..]);
      forall j | 0 <= j < |t|
        ensures t[j].score <= r[0].score
      {
        assert t[j] in multiset(t);
        if t[j] != c {
          assert t[j] in multiset(r[1..]);
        }
      }
    }
  }

  /** On a sorted list, `c` lands after every candidate of its own score. */
  lemma {:induction false} InsertWithScore(c: Candidate, r: seq<Candidate>, x: real)
    ensures WithScore(Insert(c, r), x) == (if c.score == x then [c] else []) + WithScore(r, x)
    decreases |r|
  {
    if |r| == 0 || c.score >= r[0].score {
      WithScoreCons(c, r, x);
    } else {
      var t := Insert(c, r[1..]);
      var rest := WithScore(r[1..], x);
      InsertWithScore(c, r[1..], x);
      assert Insert(c, r) == [r[0]] + t;
      WithScoreCons(r[0], t, x);
      assert r == [r[0]] + r[1..];
      WithScoreCons(r[0], r[1..], x);
      if c.score == x {
        // `r[0]` scores strictly more than `c`, so it is not in this slice.
        assert WithScore(t, x) == [c] + rest;
        assert WithScore(Insert(c, r), x) == [c] + rest;
        assert WithScore(r, x) == rest;
      } else {
        assert WithScore(t, x) == rest;
      }
    }
  }

  /**
   * Stable insertion sort, highest score first: the head of the input is
   * inserted ahead of every equal score of the sorted tail.
   */
  function SortDesc(s: seq<Candidate>): (r: seq<Candidate>)
    ensures multiset(r) == multiset(s)
    ensures |r| == |s|
    ensures SortedDesc(r)
    ensures Stable(s, r)
  {
    if |s| == 0 then []
    else
      var rest := SortDesc(s[1..]);
      InsertKeepsSorted(s[0], rest);
      assert s == [s[0]] + s[1..];
      assert forall x :: WithScore(Insert(s[0], rest), x) == WithScore(s, x) by {
        forall x
          ensures WithScore(Insert(s[0], rest), x) == WithScore(s, x)
        {
          InsertWithScore(s[0], rest, x);
        }
      }
      Insert(s[0], rest)
  }

  lemma {:induction false} WithScoreBelowHead(s: seq<Candidate>, x: real)
    requires SortedDesc(s)
    requires |WithScore(s, x)| > 0
    ensures |s| > 0 && x <= s[0].score
  {
    var c := WithScore(s, x)[0];
    WithScoreMembers(s, x, c);
    var j :| 0 <= j < |s| && s[j] == c;
  }

  /** Two lists with the same head and the same slice at `x` agree at `x` after the head. */
  lemma WithScoreDropHead(a: seq<Candidate>, b: seq<Candidate>, x: real)
    requires |a| > 0 && |b| > 0 && a[0] == b[0]
    requires WithScore(a, x) == WithScore(b, x)
    ensures WithScore(a[1..], x) == WithScore(b[1..], x)
  {
    var p := if a[0].score == x then [a[0]] else [];
    assert WithScore(a[1..], x) == WithScore(a, x)[|p|..];
    assert WithScore(b[1..], x) == WithScore(b, x)[|p|..];
  }

  /** Two sorted lists with the same slices start with the same candidate. */
  lemma SortedHeadsAgree(a: seq<Candidate>, b: seq<Candidate>)
    requires SortedDesc(a) && SortedDesc(b) && |a| > 0
    requires forall x :: WithScore(a, x) == WithScore(b, x)
    ensures |b| > 0 && a[0] == b[0]
  {
    var m := a[0].score;
    assert WithScore(a, m)[0] == a[0];
    assert WithScore(a, m) == WithScore(b, m);
    WithScoreBelowHead(b, m);
    var n := b[0].score;
    assert WithScore(b, n)[0] == b[0];
    assert WithScore(a, n) == WithScore(b, n);
    WithScoreBelowHead(a, n);
    assert WithScore(b, m)[0] == b[0];
  }

  /** Dropping the head keeps a list sorted. */
  lemma SortedTail(s: seq<Candidate>)
    requires SortedDesc(s) && |s| > 0
    ensures SortedDesc(s[1..])
  {
  }

  /**
   * A sorted list is determined by its per-score slices: two sorted lists
   * whose candidates of every score agree in order are equal.
   */
  lemma {:induction false} SortedSlicesDetermine(a: seq<Candidate>, b: seq<Candidate>)
    requires SortedDesc(a) && SortedDesc(b)
    requires forall x :: WithScore(a, x) == WithScore(b, x)
    ensures a == b
    decreases |a|
  {
    if |a| > 0 {
      SortedHeadsAgree(a, b);
      forall x
        ensures WithScore(a[1..], x) == WithScore(b[1..], x)
      {
        WithScoreDropHead(a, b, x);
      }
      SortedTail(a);
      SortedTail(b);
      SortedSlicesDetermine(a[1..], b[1..]);
      assert a == [a[0]] + a[1..];
      assert b == [b[0]] + b[1..];
    } else if |b| > 0 {
      SortedHeadsAgree(b, a);
    }
  }

  /** SortDesc is the only sorted, stable arrangement of its input. */
  lemma SortDescUnique(s: seq<Candidate>, r: seq<Candidate>)
    requires SortedDesc(r)
    requires Stable(s, r)
    ensures r == SortDesc(s)
  {
    SortedSlicesDetermine(r, SortDesc(s));
  }

  /**
   * Sorting two already sorted lists after concatenating them gives the
   * stable sort of the raw concatenation: at equal scores, everything from
   * `a` still precedes everything from `b`.
   */
  lemma ResortConcat(a: seq<Candidate>, b: seq<Candidate>)
    ensures SortDesc(SortDesc(a) + SortDesc(b)) == SortDesc(a + b)
  {
    var r := SortDesc(SortDesc(a) + SortDesc(b));
    forall x
      ensures WithScore(r, x) == WithScore(a + b, x)
    {
      WithScoreAppend(SortDesc(a), SortDesc(b), x);
      WithScoreAppend(a, b, x);
    }
    SortDescUnique(a + b, r);
  }
}
