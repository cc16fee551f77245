/** Ranking a class: sort, number the groups, measure the gaps. */
module RankRows {
  import opened Wrappers
  import opened Sequences
  import opened Ranking

  lemma InsertFurtherBack(x: Ranked, out: seq<Ranked>, j: nat, ties: seq<string>, names: NameOrder)
    requires 0 < j <= |out| && !Leq(out[j - 1], x, ties, names)
    ensures Insert(x, out[..j], ties, names) + out[j..] == Insert(x, out[..j - 1], ties, names) + out[j - 1..]
  {
    hide Leq;
    assert out[..j][..j - 1] == out[..j - 1] && out[..j][j - 1] == out[j - 1];
    var front := Insert(x, out[..j - 1], ties, names);
    assert (front + [out[j - 1]]) + out[j..] == front + out[j - 1..];
  }

  lemma InsertHere(x: Ranked, out: seq<Ranked>, j: nat, ties: seq<string>, names: NameOrder)
    requires j <= |out| && (j == 0 || Leq(out[j - 1], x, ties, names))
    ensures Insert(x, out[..j], ties, names) == out[..j] + [x]
  {
    hide Leq;
  }

  method SortRows(rows: seq<Ranked>, ties: seq<string>, names: NameOrder) returns (out: seq<Ranked>)
    ensures out == StableSort(rows, ties, names)
  {
    hide Leq;
    hide Insert;
    out := [];
    for i := 0 to |rows|
      invariant out == StableSort(rows[..i], ties, names)
    {
      var x, j := rows[i], |out|;
      assert out[..j] == out && Insert(x, out, ties, names) + [] == Insert(x, out, ties, names);
      while j > 0 && !Leq(out[j - 1], x, ties, names)
        invariant 0 <= j <= |out|
        invariant Insert(x, out, ties, names) == Insert(x, out[..j], ties, names) + out[j..]
      {
        InsertFurtherBack(x, out, j, ties, names);
        j := j - 1;
      }
      InsertHere(x, out, j, ties, names);
      assert rows[..i + 1][..i] == rows[..i];
      out := out[..j] + [x] + out[j..];
    }
    assert rows[..|rows|] == rows;
  }

  /* Counting scores. */

  function CountAbove(ts: seq<int>, v: int): (n: nat)
    ensures n <= |ts|
  {
    if ts == [] then 0 else CountAbove(ts[..|ts| - 1], v) + (if ts[|ts| - 1] > v then 1 else 0)
  }

  function CountEqual(ts: seq<int>, v: int): (n: nat) { multiset(ts)[v] }

  function Scores(rows: seq<Ranked>): (ts: seq<int>)
    ensures |ts| == |rows| && forall i | 0 <= i < |rows| :: ts[i] == rows[i].score
  {
    seq(|rows|, i requires 0 <= i < |rows| => rows[i].score)
  }

  function RowScores(rows: seq<Row>): (ts: seq<int>)
    ensures |ts| == |rows| && forall i | 0 <= i < |rows| :: ts[i] == Tenths(rows[i].score)
  {
    seq(|rows|, i requires 0 <= i < |rows| => Tenths(rows[i].score))
  }

  lemma {:induction false} CountAboveSplit(a: seq<int>, b: seq<int>, v: int)
    ensures CountAbove(a + b, v) == CountAbove(a, v) + CountAbove(b, v)
    decreases |b|
  {
    if b == [] {
      assert a + b == a;
    } else {
      assert (a + b)[..|a + b| - 1] == a + b[..|b| - 1];
      CountAboveSplit(a, b[..|b| - 1], v);
    }
  }

  lemma CountAboveWithout(b: seq<int>, i: nat, v: int)
    requires i < |b|
    ensures CountAbove(b, v) == CountAbove(b[..i] + b[i + 1..], v) + (if b[i] > v then 1 else 0)
  {
    hide CountAbove;
    var front, back := b[..i], b[i + 1..];
    assert b == front + ([b[i]] + back);
    CountAboveSplit(front, [b[i]] + back, v);
    CountAboveSplit([b[i]], back, v);
    CountAboveSplit(front, back, v);
    CountAboveOne(b[i], v);
  }

  lemma CountAboveOne(x: int, v: int)
    ensures CountAbove([x], v) == if x > v then 1 else 0
  {
    assert [x][..0] == [];
  }

  /** The count does not depend on the order. */
  lemma {:induction false} CountAbovePermuted(a: seq<int>, b: seq<int>, v: int)
    requires multiset(a) == multiset(b)
    ensures CountAbove(a, v) == CountAbove(b, v)
    decreases |a|
  {
    hide CountAbove;
    assert |a| == |multiset(a)| == |multiset(b)| == |b|;
    if a == [] {
      assert a == b;
    } else {
      assert a[0] in multiset(a);
      var i := IndexOf(b, a[0]);
      MultisetWithout(a, 0);
      MultisetWithout(b, i);
      CountAbovePermuted(a[..0] + a[1..], b[..i] + b[i + 1..], v);
      CountAboveWithout(a, 0, v);
      CountAboveWithout(b, i, v);
    }
  }

  /** Changing one score changes the count by that score alone. */
  lemma CountAboveUpdate(ts: seq<int>, i: nat, x: int, v: int)
    requires i < |ts|
    ensures CountAbove(ts[i := x], v) == CountAbove(ts, v) - (if ts[i] > v then 1 else 0) + (if x > v then 1 else 0)
  {
    hide CountAbove;
    CountAboveWithout(ts, i, v);
    CountAboveWithout(ts[i := x], i, v);
    assert ts[i := x][..i] == ts[..i] && ts[i := x][i + 1..] == ts[i + 1..];
  }

  /** Scores with nothing strictly between v and w count alike. */
  lemma {:induction false} CountAboveSame(ts: seq<int>, v: int, w: int)
    requires v <= w && forall i | 0 <= i < |ts| :: ts[i] > v ==> ts[i] > w
    ensures CountAbove(ts, v) == CountAbove(ts, w)
    decreases |ts|
  {
    if ts != [] {
      CountAboveSame(ts[..|ts| - 1], v, w);
    }
  }

  ghost predicate Descending(ts: seq<int>) { forall i, j | 0 <= i < j < |ts| :: ts[i] >= ts[j] }

  /** Everything from the start of a group on is at most the group's score. */
  lemma AboveGroup(ts: seq<int>, i: nat)
    requires Descending(ts) && i < |ts|
    ensures CountAbove(ts, ts[i]) == CountAbove(ts[..i], ts[i])
  {
    hide CountAbove;
    CountAboveSplit(ts[..i], ts[i..], ts[i]);
    assert ts == ts[..i] + ts[i..];
    NoneAbove(ts[i..], ts[i]);
  }

  /** In descending order the rows above the start of a group are the rows before it. */
  lemma GroupStart(ts: seq<int>, i: nat)
    requires Descending(ts) && i < |ts| && (i == 0 || ts[i - 1] != ts[i])
    ensures CountAbove(ts, ts[i]) == i
  {
    hide CountAbove;
    AboveGroup(ts, i);
    forall j | 0 <= j < i ensures ts[..i][j] > ts[i] {
      assert j < i - 1 ==> ts[j] >= ts[i - 1];
    }
    AllAbove(ts[..i], ts[i]);
  }

  lemma {:induction false} AllAbove(ts: seq<int>, v: int)
    requires forall i | 0 <= i < |ts| :: ts[i] > v
    ensures CountAbove(ts, v) == |ts|
    decreases |ts|
  {
    if ts != [] {
      AllAbove(ts[..|ts| - 1], v);
    }
  }

  lemma {:induction false} NoneAbove(ts: seq<int>, v: int)
    requires forall i | 0 <= i < |ts| :: ts[i] <= v
    ensures CountAbove(ts, v) == 0
    decreases |ts|
  {
    if ts != [] {
      NoneAbove(ts[..|ts| - 1], v);
    }
  }

  /** Another row has the same score. */
  ghost predicate Shared(ts: seq<int>, i: nat)
    requires i < |ts|
  {
    exists j :: 0 <= j < |ts| && j != i && ts[j] == ts[i]
  }

  predicate LikePrevious(ts: seq<int>, i: nat)
    requires i < |ts|
  {
    i > 0 && ts[i - 1] == ts[i]
  }

  lemma SharedIsAdjacent(ts: seq<int>, i: nat)
    requires Descending(ts) && i < |ts|
    ensures Shared(ts, i) <==> LikePrevious(ts, i) || (i + 1 < |ts| && LikePrevious(ts, i + 1))
  {
    if j :| 0 <= j < |ts| && j != i && ts[j] == ts[i] {
      assert j < i ==> ts[j] >= ts[i - 1] >= ts[i];
      assert j > i ==> ts[i] >= ts[i + 1] >= ts[j];
    }
  }

  ghost predicate SameRows(rows: seq<Ranked>, keyed: seq<Ranked>) {
    |rows| == |keyed| && forall j | 0 <= j < |rows| ::
      rows[j].row == keyed[j].row && rows[j].raw == keyed[j].raw && rows[j].score == keyed[j].score
  }

  /** Number the groups of a list in descending score order: one more than the
      number of better scores. */
  method NumberGroups(keyed: seq<Ranked>) returns (rows: seq<Ranked>)
    requires Descending(Scores(keyed))
    ensures SameRows(rows, keyed)
    ensures forall i | 0 <= i < |rows| ::
      rows[i].rank == 1 + CountAbove(Scores(keyed), rows[i].score) && (rows[i].tied <==> LikePrevious(Scores(keyed), i))
  {
    hide Descending;
    hide CountAbove;
    ghost var ts := Scores(keyed);
    rows := keyed;
    var lastScore: Option<int>, lastRank := None, 0;
    for i := 0 to |keyed|
      invariant SameRows(rows, keyed)
      invariant lastScore == (if i == 0 then None else Some(ts[i - 1]))
      invariant i > 0 ==> lastRank == 1 + CountAbove(ts, ts[i - 1])
      invariant forall j | 0 <= j < i :: rows[j].rank == 1 + CountAbove(ts, ts[j]) && (rows[j].tied <==> LikePrevious(ts, j))
    {
      if lastScore == Some(rows[i].score) {
        rows := rows[i := rows[i].(rank := lastRank, tied := true)];
      } else {
        GroupStart(ts, i);
        rows := rows[i := rows[i].(rank := i + 1, tied := false)];
        lastRank := i + 1;
        lastScore := Some(rows[i].score);
      }
    }
  }

  /** A row followed by one of its own rank is tied as well. */
  method MarkTies(numbered: seq<Ranked>) returns (rows: seq<Ranked>)
    requires Descending(Scores(numbered))
    requires forall i | 0 <= i < |numbered| ::
      && numbered[i].rank == 1 + CountAbove(Scores(numbered), numbered[i].score)
      && (numbered[i].tied <==> LikePrevious(Scores(numbered), i))
    ensures SameRows(rows, numbered)
    ensures forall i | 0 <= i < |rows| :: rows[i].rank == numbered[i].rank && (rows[i].tied <==> Shared(Scores(numbered), i))
  {
    hide CountAbove;
    hide Shared;
    hide LikePrevious;
    hide Descending;
    ghost var ts := Scores(numbered);
    rows := numbered;
    var i := 0;
    while i < |rows| - 1
      invariant SameRows(rows, numbered) && 0 <= i <= |rows| && (|rows| > 0 ==> i < |rows|)
      invariant forall j | 0 <= j < |rows| :: rows[j].rank == numbered[j].rank
      invariant forall j | 0 <= j < i :: rows[j].tied <==> Shared(ts, j)
      invariant forall j | i <= j < |rows| :: rows[j].tied <==> LikePrevious(ts, j)
    {
      SameRankSameScore(ts, i);
      SharedIsAdjacent(ts, i);
      if rows[i + 1].rank == rows[i].rank {
        rows := rows[i := rows[i].(tied := true)];
      }
      i := i + 1;
    }
    if |rows| > 0 {
      SharedIsAdjacent(ts, |rows| - 1);
    }
  }

  lemma SameRankSameScore(ts: seq<int>, i: nat)
    requires Descending(ts) && i + 1 < |ts|
    ensures CountAbove(ts, ts[i + 1]) == CountAbove(ts, ts[i]) <==> LikePrevious(ts, i + 1)
  {
    hide CountAbove;
    if ts[i + 1] < ts[i] {
      GroupStart(ts, i + 1);
      AboveGroup(ts, i);
    }
  }
}
