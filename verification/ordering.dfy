/**
  Ordering of scored resumes by score, highest first, as done by
  `Array.prototype.sort` with the comparator `(a, b) => b.score - a.score`.
  ECMA-262 requires that sort to be stable (since the 10th edition,
  section 22.1.3.27), so the model is a stable insertion sort, and its
  stability is proved rather than assumed.
 */
module Ordering {
  import opened Resumes

  /** Scores never increase from left to right. */
  predicate NonIncreasing(s: seq<ScoredResume>) {
    forall i, j :: 0 <= i < j < |s| ==> s[i].score >= s[j].score
  }

  /** The entries of `s` whose score is `k`, in the order they have in `s`. */
  function ScoreClass(s: seq<ScoredResume>, k: nat): (r: seq<ScoredResume>)
    ensures forall x :: x in r <==> x in s && x.score == k
    ensures |r| <= |s|
  {
    if s == [] then []
    else (if s[0].score == k then [s[0]] else []) + ScoreClass(s[1..], k)
  }

  /** Taking a score class distributes over concatenation. */
  lemma {:induction false} ScoreClassAppend(a: seq<ScoredResume>, b: seq<ScoredResume>, k: nat)
    ensures ScoreClass(a + b, k) == ScoreClass(a, k) + ScoreClass(b, k)
    decreases |a|
  {
    if a == [] {
      assert a + b == b;
    } else {
      assert (a + b)[0] == a[0];
      assert (a + b)[1..] == a[1..] + b;
      ScoreClassAppend(a[1..], b, k);
    }
  }

  /** `b` orders the entries of `a` so that entries of equal score keep
      their relative order: every score class is the same sequence in both. */
  ghost predicate StableWith(a: seq<ScoredResume>, b: seq<ScoredResume>) {
    forall k: nat :: ScoreClass(a, k) == ScoreClass(b, k)
  }

  /** An entry scoring at least as high as everything in a non-increasing
      sequence can go in front of it. */
  lemma ConsNonIncreasing(y: ScoredResume, t: seq<ScoredResume>)
    requires NonIncreasing(t)
    requires forall z :: z in t ==> y.score >= z.score
    ensures NonIncreasing([y] + t)
  {
    var r := [y] + t;
    forall i, j | 0 <= i < j < |r| ensures r[i].score >= r[j].score {
      assert r[j] == t[j - 1];
      if i > 0 {
        assert r[i] == t[i - 1];
      }
    }
  }

  /** Inserts `x` into `s` after every entry scoring at least as high. */
  function Insert(x: ScoredResume, s: seq<ScoredResume>): seq<ScoredResume> {
    if s == [] || s[0].score < x.score then [x] + s
    else [s[0]] + Insert(x, s[1..])
  }

  /** Insertion adds `x` and keeps everything else. */
  lemma {:induction false} InsertPermutes(x: ScoredResume, s: seq<ScoredResume>)
    ensures multiset(Insert(x, s)) == multiset(s) + multiset{x}
    decreases |s|
  {
    if s != [] && s[0].score >= x.score {
      InsertPermutes(x, s[1..]);
      assert s == [s[0]] + s[1..];
    }
  }

  /** Insertion into a non-increasing sequence keeps it non-increasing. */
  lemma {:induction false} InsertSorted(x: ScoredResume, s: seq<ScoredResume>)
    requires NonIncreasing(s)
    ensures NonIncreasing(Insert(x, s))
    decreases |s|
  {
    if s == [] || s[0].score < x.score {
      forall z | z in s ensures x.score >= z.score {
        var j :| 0 <= j < |s| && s[j] == z;
        assert s[0].score >= s[j].score;
      }
      ConsNonIncreasing(x, s);
    } else {
      var t := Insert(x, s[1..]);
      InsertSorted(x, s[1..]);
      InsertPermutes(x, s[1..]);
      forall z | z in t ensures s[0].score >= z.score {
        assert z in multiset(t);
        if z != x {
          assert z in multiset(s[1..]);
          var j :| 0 <= j < |s[1..]| && s[1..][j] == z;
          assert s[1 + j] == z;
        }
      }
      ConsNonIncreasing(s[0], t);
    }
  }

  /** Insertion sort, taking the entries in their given order. */
  function SortByScore(s: seq<ScoredResume>): (r: seq<ScoredResume>)
    ensures NonIncreasing(r)
    ensures multiset(r) == multiset(s)
    ensures |r| == |s|
    decreases |s|
  {
    if s == [] then []
    else
      var init := s[..|s| - 1];
      var x := s[|s| - 1];
      var sorted := SortByScore(init);
      InsertSorted(x, sorted);
      InsertPermutes(x, sorted);
      assert s == init + [x];
      var r := Insert(x, sorted);
      assert |r| == |multiset(r)|;
      r
  }

  /** A score class of entries that all score differently is empty. */
  lemma ScoreClassEmpty(s: seq<ScoredResume>, k: nat)
    requires forall i :: 0 <= i < |s| ==> s[i].score != k
    ensures ScoreClass(s, k) == []
  {
  }

  /** Putting `x` in front of entries that all score lower does not change
      any score class compared with putting it at the end. */
  lemma InsertInFrontStable(x: ScoredResume, s: seq<ScoredResume>, k: nat)
    requires forall i :: 0 <= i < |s| ==> s[i].score < x.score
    ensures ScoreClass([x] + s, k) == ScoreClass(s + [x], k)
  {
    ScoreClassAppend([x], s, k);
    ScoreClassAppend(s, [x], k);
    if k == x.score {
      ScoreClassEmpty(s, k);
    } else {
      ScoreClassEmpty([x], k);
    }
  }

  /** Inserting `x` behind its equals puts it last in its score class. */
  lemma {:induction false} InsertStable(x: ScoredResume, s: seq<ScoredResume>, k: nat)
    requires NonIncreasing(s)
    ensures ScoreClass(Insert(x, s), k) == ScoreClass(s + [x], k)
    decreases |s|
  {
    if s == [] {
    } else if s[0].score < x.score {
      InsertInFrontStable(x, s, k);
    } else {
      var t := Insert(x, s[1..]);
      calc {
        ScoreClass(Insert(x, s), k);
        ScoreClass([s[0]] + t, k);
        { ScoreClassAppend([s[0]], t, k); }
        ScoreClass([s[0]], k) + ScoreClass(t, k);
        { InsertStable(x, s[1..], k); }
        ScoreClass([s[0]], k) + ScoreClass(s[1..] + [x], k);
        { ScoreClassAppend([s[0]], s[1..] + [x], k); }
        ScoreClass([s[0]] + (s[1..] + [x]), k);
        { assert s + [x] == [s[0]] + (s[1..] + [x]); }
        ScoreClass(s + [x], k);
      }
    }
  }

  /** The insertion sort is stable. */
  lemma {:induction false} SortByScoreStable(s: seq<ScoredResume>)
    ensures StableWith(s, SortByScore(s))
    decreases |s|
  {
    if s != [] {
      var init := s[..|s| - 1];
      var x := s[|s| - 1];
      assert s == init + [x];
      SortByScoreStable(init);
      forall k: nat ensures ScoreClass(s, k) == ScoreClass(SortByScore(s), k) {
        InsertStable(x, SortByScore(init), k);
        ScoreClassAppend(SortByScore(init), [x], k);
        ScoreClassAppend(init, [x], k);
      }
    }
  }

  /** The first entry of `s` belongs to its own score class. */
  lemma ScoreClassOfHead(s: seq<ScoredResume>)
    requires s != []
    ensures ScoreClass(s, s[0].score) != []
  {
  }

  /** Sortedness and stability pin the result down: any two arrangements of
      the same entries that are both non-increasing and stable with each
      other are equal. So every stable sort by descending score, the
      engine's own `Array.prototype.sort` included, yields `SortByScore`. */
  lemma {:induction false} SortedStableUnique(a: seq<ScoredResume>, b: seq<ScoredResume>)
    requires NonIncreasing(a) && NonIncreasing(b)
    requires StableWith(a, b)
    ensures a == b
    decreases |a| + |b|
  {
    if a == [] && b == [] {
    } else if a == [] {
      ScoreClassOfHead(b);
      assert false;
    } else if b == [] {
      ScoreClassOfHead(a);
      assert false;
    } else {
      var m := a[0].score;
      var n := b[0].score;
      assert b[0] in ScoreClass(a, n);
      assert a[0] in ScoreClass(b, m);
      assert m == n by {
        var i :| 0 <= i < |a| && a[i] == b[0];
        var j :| 0 <= j < |b| && b[j] == a[0];
      }
      assert a == [a[0]] + a[1..];
      assert b == [b[0]] + b[1..];
      ScoreClassAppend([a[0]], a[1..], m);
      ScoreClassAppend([b[0]], b[1..], m);
      assert ScoreClass(a, m)[0] == a[0];
      assert ScoreClass(b, m)[0] == b[0];
      assert a[0] == b[0];
      forall k: nat ensures ScoreClass(a[1..], k) == ScoreClass(b[1..], k) {
        ScoreClassAppend([a[0]], a[1..], k);
        ScoreClassAppend([b[0]], b[1..], k);
        var front := ScoreClass([a[0]], k);
        assert ScoreClass(a, k) == ScoreClass(b, k);
        assert (front + ScoreClass(a[1..], k))[|front|..] == ScoreClass(a[1..], k);
        assert (front + ScoreClass(b[1..], k))[|front|..] == ScoreClass(b[1..], k);
      }
      SortedStableUnique(a[1..], b[1..]);
    }
  }

  /** Sorting one more entry inserts it into the sorted rest. */
  lemma SortByScoreSnoc(s: seq<ScoredResume>, x: ScoredResume)
    ensures SortByScore(s + [x]) == Insert(x, SortByScore(s))
  {
    assert (s + [x])[..|s|] == s;
  }

  /** Sorting two entries that are already in descending order keeps them. */
  lemma SortTwoSorted(x: ScoredResume, y: ScoredResume)
    requires x.score >= y.score
    ensures SortByScore([x, y]) == [x, y]
  {
    SortByScoreSnoc([], x);
    assert [] + [x] == [x];
    SortByScoreSnoc([x], y);
    assert [x] + [y] == [x, y];
    assert Insert(y, [x]) == [x] + Insert(y, []);
  }

  /** An entry tying with the first of two entries and beating the second
      goes between them. */
  lemma InsertBetween(z: ScoredResume, x: ScoredResume, y: ScoredResume)
    requires x.score >= z.score > y.score
    ensures Insert(z, [x, y]) == [x, z, y]
  {
    assert [x, y][1..] == [y];
    assert Insert(z, [y]) == [z, y];
  }

  /** Three resumes A, B, C scoring 2, 1 and 2 in store order are ranked
      A, C, B: A stays ahead of C among the equal top scores. */
  lemma StableSortExample(a: Resume, b: Resume, c: Resume)
    ensures SortByScore([ScoredResume(a, 2), ScoredResume(b, 1), ScoredResume(c, 2)])
      == [ScoredResume(a, 2), ScoredResume(c, 2), ScoredResume(b, 1)]
  {
    var x, y, z := ScoredResume(a, 2), ScoredResume(b, 1), ScoredResume(c, 2);
    calc {
      SortByScore([x, y, z]);
      { assert [x, y, z] == [x, y] + [z]; SortByScoreSnoc([x, y], z); }
      Insert(z, SortByScore([x, y]));
      { SortTwoSorted(x, y); }
      Insert(z, [x, y]);
      { InsertBetween(z, x, y); }
      [x, z, y];
    }
  }
}
