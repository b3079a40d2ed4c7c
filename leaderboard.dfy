/**
 * The top-5 leaderboard kept by the quiz (App.js, `saveScore`).
 *
 * On completion the player's entry is appended to the board, the board is
 * sorted by descending score with the engine's `Array.prototype.sort` (which
 * is stable) and only the first five entries are kept.  The sort is specified
 * here by `SortDesc`, a stable insertion sort on sequences, and performed in
 * place on an array by `SortByScoreDesc`.
 */
module Leaderboard {
  import opened Options

  /** One row of the board: the name typed at the prompt (None if cancelled) and a score. */
  datatype Entry = Entry(name: Option<string>, score: int)

  /** How many entries the board keeps (`slice(0, 5)`). */
  const Capacity: nat := 5

  /** Non-increasing order of score. */
  predicate SortedDesc(s: seq<Entry>)
  {
    forall i, j :: 0 <= i < j < |s| ==> s[i].score >= s[j].score
  }

  /** The entries of `s` that have score `k`, in their order in `s`. */
  function WithScore(s: seq<Entry>, k: int): (r: seq<Entry>)
    ensures |r| <= |s|
    ensures forall x :: x in r ==> x in s && x.score == k
  {
    if s == [] then []
    else (if s[0].score == k then [s[0]] else []) + WithScore(s[1..], k)
  }

  lemma {:induction false} WithScoreAppend(a: seq<Entry>, b: seq<Entry>, k: int)
    ensures WithScore(a + b, k) == WithScore(a, k) + WithScore(b, k)
  {
    if a == [] {
      assert a + b == b;
    } else {
      assert (a + b)[0] == a[0];
      assert (a + b)[1..] == a[1..] + b;
      WithScoreAppend(a[1..], b, k);
    }
  }

  /**
   * Inserts `e` into `t` after every entry whose score is at least `e.score`
   * counted from the back: the place a stable descending sort gives an
   * element that comes after all of `t`.
   */
  function InsertDesc(t: seq<Entry>, e: Entry): (r: seq<Entry>)
    ensures |r| == |t| + 1
    decreases |t|
  {
    if |t| == 0 || t[|t| - 1].score >= e.score then t + [e]
    else InsertDesc(t[..|t| - 1], e) + [t[|t| - 1]]
  }

  /** Insertion adds exactly `e` to the board. */
  lemma {:induction false} InsertDescPermutes(t: seq<Entry>, e: Entry)
    ensures multiset(InsertDesc(t, e)) == multiset(t) + multiset{e}
    decreases |t|
  {
    if |t| > 0 && t[|t| - 1].score < e.score {
      assert t == t[..|t| - 1] + [t[|t| - 1]];
      InsertDescPermutes(t[..|t| - 1], e);
    }
  }

  /** Inserting into a sorted board keeps it sorted. */
  lemma {:induction false} InsertDescSorted(t: seq<Entry>, e: Entry)
    requires SortedDesc(t)
    ensures SortedDesc(InsertDesc(t, e))
    decreases |t|
  {
    if |t| == 0 || t[|t| - 1].score >= e.score {
    } else {
      var last := t[|t| - 1];
      var t' := t[..|t| - 1];
      var r' := InsertDesc(t', e);
      InsertDescSorted(t', e);
      InsertDescPermutes(t', e);
      forall x | x in r' ensures x.score >= last.score {
        assert x in multiset(r');
        assert x in multiset(t') || x == e;
      }
      assert InsertDesc(t, e) == r' + [last];
      forall i, j | 0 <= i < j < |r'| + 1 ensures (r' + [last])[i].score >= (r' + [last])[j].score {
        if j == |r'| {
          assert r'[i] in r';
        }
      }
    }
  }

  /** Stable sort by descending score, inserting the elements one by one from the front. */
  function SortDesc(s: seq<Entry>): (r: seq<Entry>)
    ensures |r| == |s|
    decreases |s|
  {
    if s == [] then []
    else InsertDesc(SortDesc(s[..|s| - 1]), s[|s| - 1])
  }

  /** `SortDesc` returns a sorted permutation of its input. */
  lemma {:induction false} SortDescSortsAndPermutes(s: seq<Entry>)
    ensures SortedDesc(SortDesc(s))
    ensures multiset(SortDesc(s)) == multiset(s)
    decreases |s|
  {
    if s != [] {
      var s', x := s[..|s| - 1], s[|s| - 1];
      assert s == s' + [x];
      SortDescSortsAndPermutes(s');
      InsertDescSorted(SortDesc(s'), x);
      InsertDescPermutes(SortDesc(s'), x);
    }
  }

  /** Within one score, `InsertDesc` keeps the board's order and puts `e` last. */
  lemma {:induction false} InsertDescStable(t: seq<Entry>, e: Entry, k: int)
    ensures WithScore(InsertDesc(t, e), k) == WithScore(t, k) + WithScore([e], k)
    decreases |t|
  {
    if |t| == 0 || t[|t| - 1].score >= e.score {
      WithScoreAppend(t, [e], k);
    } else {
      var last := t[|t| - 1];
      var t' := t[..|t| - 1];
      assert t == t' + [last];
      InsertDescStable(t', e, k);
      WithScoreAppend(InsertDesc(t', e), [last], k);
      WithScoreAppend(t', [last], k);
      // `last` scores below `e`, so at most one of the two is kept.
      assert WithScore([e], k) == [] || WithScore([last], k) == [];
    }
  }

  /** `SortDesc` is stable: for every score, the entries with that score keep their order. */
  lemma {:induction false} SortDescStable(s: seq<Entry>, k: int)
    ensures WithScore(SortDesc(s), k) == WithScore(s, k)
    decreases |s|
  {
    if s != [] {
      var s', x := s[..|s| - 1], s[|s| - 1];
      assert s == s' + [x];
      SortDescStable(s', k);
      InsertDescStable(SortDesc(s'), x, k);
      WithScoreAppend(s', [x], k);
    }
  }

  /** A stable descending sort of `s`: what `Array.prototype.sort` with comparator `b.score - a.score` returns. */
  ghost predicate IsStableSortDesc(s: seq<Entry>, r: seq<Entry>)
  {
    SortedDesc(r) && forall k :: WithScore(r, k) == WithScore(s, k)
  }

  /** The head of a sorted board holds its highest score. */
  lemma SortedHeadIsMax(r: seq<Entry>, x: Entry)
    requires SortedDesc(r) && x in r
    ensures r[0].score >= x.score
  {
  }

  /** The entries of a non-empty board with its head's score start with the head. */
  lemma WithScoreHead(r: seq<Entry>)
    requires r != []
    ensures WithScore(r, r[0].score) == [r[0]] + WithScore(r[1..], r[0].score)
  {
  }

  /** Two sorted boards that agree on the entries of their heads' scores have the same head. */
  lemma SameHead(r1: seq<Entry>, r2: seq<Entry>)
    requires SortedDesc(r1) && SortedDesc(r2) && r1 != [] && r2 != []
    requires WithScore(r1, r1[0].score) == WithScore(r2, r1[0].score)
    requires WithScore(r1, r2[0].score) == WithScore(r2, r2[0].score)
    ensures r1[0] == r2[0]
  {
    var a, b := r1[0], r2[0];
    WithScoreHead(r1);
    WithScoreHead(r2);
    var wa := WithScore(r2, a.score);
    assert wa[0] == a;
    assert a in wa;
    SortedHeadIsMax(r2, a);
    var wb := WithScore(r1, b.score);
    assert wb[0] == b;
    assert b in wb;
    SortedHeadIsMax(r1, b);
    assert a.score == b.score;
  }

  /** Boards with the same head that agree on score `k` still agree on it without the head. */
  lemma SameTail(r1: seq<Entry>, r2: seq<Entry>, k: int)
    requires r1 != [] && r2 != [] && r1[0] == r2[0]
    requires WithScore(r1, k) == WithScore(r2, k)
    ensures WithScore(r1[1..], k) == WithScore(r2[1..], k)
  {
    var h := if r1[0].score == k then [r1[0]] else [];
    assert WithScore(r1[1..], k) == WithScore(r1, k)[|h|..];
    assert WithScore(r2[1..], k) == WithScore(r2, k)[|h|..];
  }

  /**
   * Two sorted boards that agree on the entries of every score are the same
   * board: the result of a stable sort does not depend on the algorithm.
   */
  lemma {:induction false} StableSortUnique(r1: seq<Entry>, r2: seq<Entry>)
    requires SortedDesc(r1) && SortedDesc(r2)
    requires forall k :: WithScore(r1, k) == WithScore(r2, k)
    ensures r1 == r2
    decreases |r1|
  {
    if r1 == [] && r2 == [] {
    } else if r1 == [] {
      WithScoreHead(r2);
      assert false;
    } else if r2 == [] {
      WithScoreHead(r1);
      assert false;
    } else {
      SameHead(r1, r2);
      var a, t1, t2 := r1[0], r1[1..], r2[1..];
      forall k ensures WithScore(t1, k) == WithScore(t2, k) {
        SameTail(r1, r2, k);
      }
      StableSortUnique(t1, t2);
      assert r1 == [a] + t1;
      assert r2 == [a] + t2;
    }
  }

  /** `SortDesc` is a stable descending sort, and every stable descending sort equals it. */
  lemma SortDescIsTheStableSort(s: seq<Entry>, r: seq<Entry>)
    ensures IsStableSortDesc(s, r) <==> r == SortDesc(s)
  {
    SortDescSortsAndPermutes(s);
    forall k ensures WithScore(SortDesc(s), k) == WithScore(s, k) {
      SortDescStable(s, k);
    }
    if IsStableSortDesc(s, r) {
      StableSortUnique(r, SortDesc(s));
    }
  }

  /** A prefix of a sorted board is sorted. */
  lemma SortedPrefix(s: seq<Entry>, n: nat)
    requires SortedDesc(s) && n <= |s|
    ensures SortedDesc(s[..n])
  {
  }

  /** An already sorted board is left as it is by the sort. */
  lemma {:induction false} SortDescOfSorted(s: seq<Entry>)
    requires SortedDesc(s)
    ensures SortDesc(s) == s
    decreases |s|
  {
    if s != [] {
      var s', x := s[..|s| - 1], s[|s| - 1];
      SortedPrefix(s, |s| - 1);
      SortDescOfSorted(s');
      assert SortDesc(s) == InsertDesc(s', x);
      InsertDescSplit(s', |s'|, x);
      assert s' + [x] == s;
    }
  }

  /** The first `Capacity` entries (`slice(0, 5)`). */
  function TopFive(s: seq<Entry>): (r: seq<Entry>)
    ensures |r| <= Capacity && |r| <= |s|
    ensures |r| == |s| || |r| == Capacity
    ensures r == s[..|r|]
  {
    if |s| <= Capacity then s else s[..Capacity]
  }

  /** The board after `saveScore` with entry `e`: append, stable sort by descending score, keep five. */
  function Save(board: seq<Entry>, e: Entry): (r: seq<Entry>)
    ensures |r| <= Capacity
    ensures |r| == |board| + 1 || |r| == Capacity
  {
    TopFive(SortDesc(board + [e]))
  }

  /** The saved board is sorted and holds only entries of the old board and the new one. */
  lemma SaveSortedSubset(board: seq<Entry>, e: Entry)
    ensures SortedDesc(Save(board, e))
    ensures multiset(Save(board, e)) <= multiset(board) + multiset{e}
  {
    var sorted := SortDesc(board + [e]);
    var r := TopFive(sorted);
    SortDescSortsAndPermutes(board + [e]);
    SortedPrefix(sorted, |r|);
    assert sorted == r + sorted[|r|..];
  }

  /** On a sorted board the save is an insertion followed by truncation. */
  lemma SaveIntoSorted(board: seq<Entry>, e: Entry)
    requires SortedDesc(board)
    ensures Save(board, e) == TopFive(InsertDesc(board, e))
  {
    assert (board + [e])[..|board|] == board;
    SortDescOfSorted(board);
  }

  /** A full board whose every entry scores at least `e.score` does not change. */
  lemma SaveFullBoardUnchanged(board: seq<Entry>, e: Entry)
    requires SortedDesc(board) && |board| == Capacity
    requires forall x :: x in board ==> x.score >= e.score
    ensures Save(board, e) == board
  {
    SaveIntoSorted(board, e);
    assert board[|board| - 1] in board;
  }

  /** A sorted board with room left gains exactly the new entry. */
  lemma SaveWithRoom(board: seq<Entry>, e: Entry)
    requires SortedDesc(board) && |board| < Capacity
    ensures multiset(Save(board, e)) == multiset(board) + multiset{e}
  {
    SaveIntoSorted(board, e);
    InsertDescPermutes(board, e);
  }

  /**
   * Where `InsertDesc` puts `e`: after position `j` when `t[j - 1]` scores at
   * least as high as `e` and everything from `j` on scores below it.
   */
  lemma {:induction false} InsertDescSplit(t: seq<Entry>, j: nat, e: Entry)
    requires j <= |t| && (j == 0 || t[j - 1].score >= e.score)
    requires forall m :: j <= m < |t| ==> t[m].score < e.score
    ensures InsertDesc(t, e) == t[..j] + [e] + t[j..]
    decreases |t|
  {
    if j < |t| {
      var t', last := t[..|t| - 1], t[|t| - 1];
      InsertDescSplit(t', j, e);
      assert t'[..j] == t[..j];
      assert t'[j..] + [last] == t[j..];
    }
  }

  /**
   * Moves `a[i]` left past the entries of `a[..i]` that score below it: one
   * step of the in-place sort.
   */
  method InsertAt(a: array<Entry>, i: nat)
    requires i < a.Length
    modifies a
    ensures a[..i + 1] == InsertDesc(old(a[..i]), old(a[i]))
    ensures forall m :: i < m < a.Length ==> a[m] == old(a[m])
  {
    ghost var t := a[..i];
    var x := a[i];
    var j := i;
    while j > 0 && a[j - 1].score < x.score
      invariant 0 <= j <= i
      invariant forall m :: 0 <= m < j ==> a[m] == t[m]
      invariant forall m :: j < m <= i ==> a[m] == t[m - 1]
      invariant forall m :: j <= m < i ==> t[m].score < x.score
      invariant forall m :: i < m < a.Length ==> a[m] == old(a[m])
    {
      a[j] := a[j - 1];
      j := j - 1;
    }
    a[j] := x;
    InsertDescSplit(t, j, x);
    assert a[..i + 1] == t[..j] + [x] + t[j..];
  }

  /**
   * Sorts `a` in place by descending score, stably; the model of
   * `newLeaderboard.sort((a, b) => b.score - a.score)`.
   */
  method SortByScoreDesc(a: array<Entry>)
    modifies a
    ensures a[..] == SortDesc(old(a[..]))
  {
    ghost var s := a[..];
    var i := 0;
    while i < a.Length
      invariant 0 <= i <= a.Length
      invariant a[..i] == SortDesc(s[..i])
      invariant forall m :: i <= m < a.Length ==> a[m] == s[m]
    {
      assert s[..i + 1][..i] == s[..i];
      InsertAt(a, i);
      i := i + 1;
    }
    assert a[..] == a[..a.Length];
    assert s == s[..a.Length];
  }
}
