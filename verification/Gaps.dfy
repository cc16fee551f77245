/** Ranking a class and the gaps between neighbouring groups. */
module Gaps {
  import opened Wrappers
  import opened Sequences
  import opened Ranking
  import opened RankRows

  function KeyedRows(rows: seq<Row>): (ks: seq<Ranked>)
    ensures |ks| == |rows| && forall i | 0 <= i < |rows| :: ks[i] == Keyed(rows[i])
  {
    seq(|rows|, i requires 0 <= i < |rows| => Keyed(rows[i]))
  }

  function RowsOf(out: seq<Ranked>): (rows: seq<Row>)
    ensures |rows| == |out| && forall i | 0 <= i < |out| :: rows[i] == out[i].row
  {
    seq(|out|, i requires 0 <= i < |out| => out[i].row)
  }

  /** A competition ranking of rows: the same rows, in key order, each ranked one
      more than the number of better rounded scores, tied when it shares its score. */
  ghost predicate IsRanking(rows: seq<Row>, out: seq<Ranked>, ties: seq<string>, names: NameOrder) {
    && multiset(RowsOf(out)) == multiset(rows)
    && Sorted(out, ties, names)
    && forall i | 0 <= i < |out| ::
         && out[i].score == Tenths(out[i].row.score) && out[i].raw == Tenths(out[i].row.raw)
         && out[i].rank == 1 + CountAbove(RowScores(rows), out[i].score)
         && (out[i].tied <==> CountEqual(RowScores(rows), out[i].score) >= 2)
  }

  lemma PermutedScores(a: seq<Ranked>, b: seq<Ranked>)
    requires multiset(a) == multiset(b)
    ensures multiset(Scores(a)) == multiset(Scores(b)) && multiset(RowsOf(a)) == multiset(RowsOf(b))
  {
    var score, row := (r: Ranked) => r.score, (r: Ranked) => r.row;
    MappedPermuted(a, b, score);
    MappedPermuted(a, b, row);
    assert Scores(a) == Mapped(a, score) && Scores(b) == Mapped(b, score);
    assert RowsOf(a) == Mapped(a, row) && RowsOf(b) == Mapped(b, row);
  }

  lemma KeyedRowsBack(rows: seq<Row>)
    ensures RowsOf(KeyedRows(rows)) == rows && Scores(KeyedRows(rows)) == RowScores(rows)
  {
  }

  /** A shared score occurs at least twice. */
  lemma SharedIsTwice(ts: seq<int>, i: nat)
    requires i < |ts|
    ensures Shared(ts, i) <==> CountEqual(ts, ts[i]) >= 2
  {
    MultisetWithout(ts, i);
    var rest := ts[..i] + ts[i + 1..];
    if j :| 0 <= j < |ts| && j != i && ts[j] == ts[i] {
      assert rest[if j < i then j else j - 1] == ts[i];
      assert ts[i] in multiset(rest);
    }
    if ts[i] in multiset(rest) {
      var j :| 0 <= j < |rest| && rest[j] == ts[i];
      assert ts[if j < i then j else j + 1] == ts[i];
    }
  }

  lemma SortedDescends(out: seq<Ranked>, ties: seq<string>, names: NameOrder)
    requires Sorted(out, ties, names)
    ensures Descending(Scores(out))
  {
    forall i, j | 0 <= i < j < |out| ensures Scores(out)[i] >= Scores(out)[j] {
      assert Leq(out[i], out[j], ties, names);
    }
  }

  lemma SameRowsSorted(a: seq<Ranked>, b: seq<Ranked>, ties: seq<string>, names: NameOrder)
    requires SameRows(a, b) && Sorted(b, ties, names)
    ensures Sorted(a, ties, names) && RowsOf(a) == RowsOf(b) && Scores(a) == Scores(b)
  {
    forall i, j | 0 <= i < j < |a| ensures Leq(a[i], a[j], ties, names) {
      assert Leq(b[i], b[j], ties, names);
    }
  }

  /** Sort, number, mark. With the two implementations' own name orders this is
      either of them. */
  method RankAll(rows: seq<Row>, ties: seq<string>, names: NameOrder) returns (out: seq<Ranked>)
    requires Preorder(names)
    ensures IsRanking(rows, out, ties, names)
  {
    hide CountAbove;
    hide Leq;
    hide StableSort;
    hide Shared;
    var keyed := KeyedRows(rows);
    var sorted := SortRows(keyed, ties, names);
    StableSortSorts(keyed, ties, names);
    SortedDescends(sorted, ties, names);
    PermutedScores(sorted, keyed);
    KeyedRowsBack(rows);
    var numbered := NumberGroups(sorted);
    SameRowsSorted(numbered, sorted, ties, names);
    out := MarkTies(numbered);
    SameRowsSorted(out, numbered, ties, names);
    forall i | 0 <= i < |out|
      ensures out[i].rank == 1 + CountAbove(RowScores(rows), out[i].score)
      ensures out[i].tied <==> CountEqual(RowScores(rows), out[i].score) >= 2
      ensures out[i].score == Tenths(out[i].row.score) && out[i].raw == Tenths(out[i].row.raw)
    {
      CountAbovePermuted(Scores(sorted), RowScores(rows), out[i].score);
      SharedIsTwice(Scores(sorted), i);
      assert sorted[i] in multiset(keyed);
      var j := IndexOf(keyed, sorted[i]);
    }
  }

  lemma RowScoresPermuted(a: seq<Row>, b: seq<Row>)
    requires multiset(a) == multiset(b)
    ensures multiset(RowScores(a)) == multiset(RowScores(b))
  {
    var f := (r: Row) => Tenths(r.score);
    MappedPermuted(a, b, f);
    assert RowScores(a) == Mapped(a, f) && RowScores(b) == Mapped(b, f);
  }

  /** A student's rank and tied flag do not depend on the order of the input, on the
      tie-breakers or on how names are compared: the server's and the browser's
      ranking of the same rows agree. */
  lemma RankingsAgree(a: seq<Row>, outA: seq<Ranked>, tiesA: seq<string>, namesA: NameOrder, i: nat,
                      b: seq<Row>, outB: seq<Ranked>, tiesB: seq<string>, namesB: NameOrder, j: nat)
    requires IsRanking(a, outA, tiesA, namesA) && IsRanking(b, outB, tiesB, namesB)
    requires multiset(a) == multiset(b)
    requires i < |outA| && j < |outB| && outA[i].row == outB[j].row
    ensures outA[i].rank == outB[j].rank && outA[i].tied == outB[j].tied
  {
    hide CountAbove;
    RowScoresPermuted(a, b);
    CountAbovePermuted(RowScores(a), RowScores(b), outA[i].score);
  }

  /* Gaps, in tenths. */

  /** A row's score as ranked: a negative rounded score is recomputed, which gives
      nothing when the row has no score. */
  function RankedScore(r: Ranked): Option<int> {
    if r.score >= 0 then Some(r.score) else if r.row.score.None? then None else Some(Round1(r.row.score.value))
  }

  function Gap(a: Option<int>, b: Option<int>): Option<int> {
    if a.None? || b.None? then None
    else
      var diff := Round1((a.value - b.value) as real / 10.0);
      Some(if diff > 0 then diff else 0)
  }

  lemma RoundTenths(n: int)
    ensures Round1(n as real / 10.0) == n
  {
    var x := n as real / 10.0 * 10.0 + 0.5;
    assert x == n as real + 0.5;
  }

  /** Adding k tenths to a score adds k to its rounded tenths. */
  lemma Round1Shift(x: real, k: int)
    ensures Round1(x + k as real / 10.0) == Round1(x) + k
  {
    var y := x * 10.0 + 0.5;
    assert (x + k as real / 10.0) * 10.0 + 0.5 == y + k as real;
    assert (y + k as real).Floor == y.Floor + k;
  }

  ghost predicate NextAbove(ts: seq<int>, v: int, a: int) {
    a in ts && a > v && forall t | t in ts :: t > v ==> t >= a
  }

  ghost predicate NextBelow(ts: seq<int>, v: int, b: int) {
    b in ts && b < v && forall t | t in ts :: t < v ==> t <= b
  }

  /** A ranked list, as ranking leaves it. */
  ghost predicate RankedList(rows: seq<Ranked>) {
    && Descending(Scores(rows))
    && forall i | 0 <= i < |rows| ::
         rows[i].score == Tenths(rows[i].row.score) && rows[i].rank == 1 + CountAbove(Scores(rows), rows[i].score)
  }

  /** Rows without a score sort as minus one; no scored row is that low, so they are
      the last group. */
  ghost predicate UnscoredLast(rows: seq<Ranked>) {
    forall i, j | 0 <= i < |rows| && 0 <= j < |rows| && rows[i].row.score.None? && rows[j].row.score.Some? ::
      rows[i].score < rows[j].score
  }

  /** Better score, better rank. */
  lemma RankFollowsScore(rows: seq<Ranked>, i: nat, j: nat)
    requires RankedList(rows) && i < |rows| && j < |rows|
    ensures rows[i].rank < rows[j].rank <==> rows[i].score > rows[j].score
    ensures rows[i].rank == 1 <==> forall t | t in Scores(rows) :: t <= rows[i].score
  {
    var ts := Scores(rows);
    CountAboveOrder(ts, i, j);
    CountAboveOrder(ts, j, i);
    CountAboveZero(ts, rows[i].score);
    if forall t | t in ts :: t <= rows[i].score {
      forall k | 0 <= k < |ts| ensures ts[k] <= rows[i].score {
        assert ts[k] in ts;
      }
    }
  }

  lemma {:induction false} CountAboveMono(ts: seq<int>, v: int, w: int)
    requires v <= w
    ensures CountAbove(ts, w) <= CountAbove(ts, v)
    decreases |ts|
  {
    if ts != [] {
      CountAboveMono(ts[..|ts| - 1], v, w);
    }
  }

  lemma CountAboveOrder(ts: seq<int>, i: nat, j: nat)
    requires i < |ts| && j < |ts|
    ensures ts[i] > ts[j] ==> CountAbove(ts, ts[i]) < CountAbove(ts, ts[j])
  {
    hide CountAbove;
    CountAboveWithout(ts, i, ts[i]);
    CountAboveWithout(ts, i, ts[j]);
    if ts[i] > ts[j] {
      CountAboveMono(ts[..i] + ts[i + 1..], ts[j], ts[i]);
    }
  }

  lemma {:induction false} CountAboveZero(ts: seq<int>, v: int)
    ensures CountAbove(ts, v) == 0 <==> forall i | 0 <= i < |ts| :: ts[i] <= v
    decreases |ts|
  {
    if ts != [] {
      var init := ts[..|ts| - 1];
      CountAboveZero(init, v);
      assert CountAbove(ts, v) == 0 ==> forall i | 0 <= i < |ts| :: ts[i] == (if i < |ts| - 1 then init[i] else ts[i]);
    }
  }

  lemma GapOfScored(a: Ranked, b: Ranked)
    requires a.row.score.Some? && a.score == Tenths(a.row.score) && b.row.score.Some? && b.score == Tenths(b.row.score)
    ensures Gap(RankedScore(a), RankedScore(b)) == Some(if a.score > b.score then a.score - b.score else 0)
  {
    RoundTenths(a.score - b.score);
  }

  lemma GapOfUnscored(a: Ranked, b: Ranked)
    requires a.score == Tenths(a.row.score) && b.score == Tenths(b.row.score)
    requires a.row.score.None? || b.row.score.None?
    ensures Gap(RankedScore(a), RankedScore(b)) == None
  {
  }

  /** i is the last row of the group above index. */
  ghost predicate EndsGroupAbove(rows: seq<Ranked>, i: nat, index: nat) {
    i < index < |rows| && rows[i].score > rows[index].score
    && forall j | i < j < index :: rows[j].score == rows[index].score
  }

  /** i is the first row of the group below index. */
  ghost predicate StartsGroupBelow(rows: seq<Ranked>, i: nat, index: nat) {
    index < i < |rows| && rows[i].score < rows[index].score
    && forall j | index < j < i :: rows[j].score == rows[index].score
  }

  function GapUp(rows: seq<Ranked>, i: nat, index: nat): Option<int>
    requires i < |rows| && index < |rows|
  {
    Gap(RankedScore(rows[i]), RankedScore(rows[index]))
  }

  /** Rank 1 has no gap up; any other row's is measured to the end of the group above. */
  method GapToNext(rows: seq<Ranked>, index: nat) returns (g: Option<int>)
    requires RankedList(rows) && index < |rows|
    ensures rows[index].rank == 1 ==> g.None?
    ensures rows[index].rank > 1 ==> exists i :: EndsGroupAbove(rows, i, index) && g == GapUp(rows, i, index)
  {
    hide CountAbove;
    var i := index;
    RankFollowsScore(rows, index, index);
    while i > 0
      invariant 0 <= i <= index
      invariant forall j | i <= j < |rows| :: rows[j].score <= rows[index].score
    {
      i := i - 1;
      RankFollowsScore(rows, i, index);
      assert forall j | i < j < index :: Scores(rows)[j] >= Scores(rows)[index];
      if rows[i].rank < rows[index].rank {
        assert Scores(rows)[i] in Scores(rows);
        assert EndsGroupAbove(rows, i, index);
        return Gap(RankedScore(rows[i]), RankedScore(rows[index]));
      }
    }
    return None;
  }

  method GapToBelow(rows: seq<Ranked>, index: nat) returns (g: Option<int>)
    requires RankedList(rows) && index < |rows|
    ensures (forall j | 0 <= j < |rows| :: rows[j].score >= rows[index].score) ==> g.None?
    ensures !(forall j | 0 <= j < |rows| :: rows[j].score >= rows[index].score) ==>
      exists i :: StartsGroupBelow(rows, i, index) && g == GapUp(rows, index, i)
  {
    hide CountAbove;
    for i := index + 1 to |rows|
      invariant forall j | 0 <= j < i :: rows[j].score >= rows[index].score
    {
      RankFollowsScore(rows, index, i);
      RankFollowsScore(rows, i, index);
      if rows[i].rank > rows[index].rank {
        assert forall j | index < j < i :: Scores(rows)[j] <= Scores(rows)[index];
        assert StartsGroupBelow(rows, i, index);
        return Gap(RankedScore(rows[index]), RankedScore(rows[i]));
      }
    }
    return None;
  }

  /* What a gap means. */

  function Raised(rows: seq<Row>, p: nat, k: int): (r: seq<Row>)
    requires p < |rows| && rows[p].score.Some?
  {
    rows[p := rows[p].(score := Some(rows[p].score.value + k as real / 10.0))]
  }

  function RankOf(rows: seq<Row>, p: nat): nat
    requires p < |rows|
  {
    1 + CountAbove(RowScores(rows), Tenths(rows[p].score))
  }

  /** Raising a score by exactly its gap gives the student the rank of the group
      above; raising it by any smaller amount of tenths leaves the rank as it was. */
  lemma GapIsExact(rows: seq<Row>, p: nat, gap: int, k: int)
    requires p < |rows| && rows[p].score.Some?
    requires NextAbove(RowScores(rows), Tenths(rows[p].score), Tenths(rows[p].score) + gap)
    requires 0 < k <= gap
    ensures k < gap ==> RankOf(Raised(rows, p, k), p) == RankOf(rows, p)
    ensures k == gap ==> forall q | 0 <= q < |rows| && Tenths(rows[q].score) == Tenths(rows[p].score) + gap ::
                           RankOf(Raised(rows, p, k), p) == RankOf(rows, q) < RankOf(rows, p)
  {
    hide CountAbove;
    var ts, v := RowScores(rows), Tenths(rows[p].score);
    Round1Shift(rows[p].score.value, k);
    assert RowScores(Raised(rows, p, k)) == ts[p := v + k];
    CountAboveUpdate(ts, p, v + k, v + k);
    if k < gap {
      forall i | 0 <= i < |ts| && ts[i] > v ensures ts[i] > v + k {
        assert ts[i] in ts;
      }
      CountAboveSame(ts, v, v + k);
    } else {
      forall q | 0 <= q < |rows| && Tenths(rows[q].score) == v + gap ensures RankOf(rows, q) < RankOf(rows, p) {
        CountAboveOrder(ts, q, p);
      }
    }
  }

  /* The whole table. */

  /** No scored row rounds as low as the value that stands for a missing score. */
  ghost predicate AboveSentinel(rows: seq<Row>) {
    (exists i :: 0 <= i < |rows| && rows[i].score.None?) ==>
      forall j | 0 <= j < |rows| && rows[j].score.Some? :: Tenths(rows[j].score) > Tenths(None)
  }

  lemma RankingIsRankedList(rows: seq<Row>, out: seq<Ranked>, ties: seq<string>, names: NameOrder)
    requires IsRanking(rows, out, ties, names)
    ensures RankedList(out) && multiset(Scores(out)) == multiset(RowScores(rows))
    ensures AboveSentinel(rows) ==> UnscoredLast(out)
  {
    hide CountAbove;
    SortedDescends(out, ties, names);
    RowScoresPermuted(RowsOf(out), rows);
    assert Scores(out) == RowScores(RowsOf(out));
    forall i | 0 <= i < |out| ensures out[i].rank == 1 + CountAbove(Scores(out), out[i].score) {
      CountAbovePermuted(Scores(out), RowScores(rows), out[i].score);
    }
    if AboveSentinel(rows) {
      UnscoredRankLast(rows, out, ties, names);
    }
  }

  lemma UnscoredRankLast(rows: seq<Row>, out: seq<Ranked>, ties: seq<string>, names: NameOrder)
    requires IsRanking(rows, out, ties, names) && AboveSentinel(rows)
    ensures UnscoredLast(out)
  {
    hide CountAbove;
    hide Sorted;
    forall i, j | 0 <= i < |out| && 0 <= j < |out| && out[i].row.score.None? && out[j].row.score.Some?
      ensures out[i].score < out[j].score
    {
      var p := RowBehind(rows, out, ties, names, i);
      var q := RowBehind(rows, out, ties, names, j);
    }
  }

  /** Both gaps of a row: missing at the ends of the table and without a score, and
      otherwise leading to the nearest better and the nearest worse score. */
  ghost predicate GapsRight(out: seq<Ranked>, r: Ranked, up: Option<int>, down: Option<int>) {
    && (up.None? <==> r.rank == 1 || r.row.score.None?)
    && (up.Some? ==> NextAbove(Scores(out), r.score, r.score + up.value))
    && (down.None? <==> NoneBelow(out, r))
    && (down.Some? ==> NextBelow(Scores(out), r.score, r.score - down.value))
  }

  lemma GroupAboveIsNext(out: seq<Ranked>, i: nat, index: nat)
    requires Descending(Scores(out)) && EndsGroupAbove(out, i, index)
    ensures NextAbove(Scores(out), out[index].score, out[i].score)
  {
    var ts := Scores(out);
    assert ts[i] in ts;
    forall j | i < j < |ts| ensures ts[j] <= ts[index] {
      if j < index {
        assert ts[j] == out[j].score;
      }
    }
    forall t | t in ts && t > ts[index] ensures t >= ts[i] {
      var j :| 0 <= j < |ts| && ts[j] == t;
    }
  }

  lemma GroupBelowIsNext(out: seq<Ranked>, i: nat, index: nat)
    requires Descending(Scores(out)) && StartsGroupBelow(out, i, index)
    ensures NextBelow(Scores(out), out[index].score, out[i].score)
  {
    var ts := Scores(out);
    assert ts[i] in ts;
    forall j | 0 <= j < i ensures ts[j] >= ts[index] {
      if j > index {
        assert ts[j] == out[j].score;
      }
    }
    forall t | t in ts && t < ts[index] ensures t <= ts[i] {
      var j :| 0 <= j < |ts| && ts[j] == t;
    }
  }

  lemma GapUpRight(out: seq<Ranked>, i: nat, index: nat)
    requires RankedList(out) && UnscoredLast(out) && EndsGroupAbove(out, i, index)
    ensures var g := GapUp(out, i, index);
      && (g.None? <==> out[index].row.score.None?)
      && (g.Some? ==> NextAbove(Scores(out), out[index].score, out[index].score + g.value))
  {
    hide CountAbove;
    hide NextAbove;
    GroupAboveIsNext(out, i, index);
    if out[index].row.score.None? {
      GapOfUnscored(out[i], out[index]);
    } else {
      GapOfScored(out[i], out[index]);
    }
  }

  /** The row has no score, or no scored row is below it. */
  ghost predicate NoneBelow(out: seq<Ranked>, r: Ranked) {
    r.row.score.None? || forall j | 0 <= j < |out| && out[j].row.score.Some? :: out[j].score >= r.score
  }

  lemma GapDownRight(out: seq<Ranked>, i: nat, index: nat)
    requires RankedList(out) && UnscoredLast(out) && StartsGroupBelow(out, i, index)
    ensures var g := GapUp(out, index, i);
      && (g.None? <==> NoneBelow(out, out[index]))
      && (g.Some? ==> NextBelow(Scores(out), out[index].score, out[index].score - g.value))
  {
    hide CountAbove;
    GroupBelowIsNext(out, i, index);
    if out[i].row.score.None? || out[index].row.score.None? {
      GapOfUnscored(out[index], out[i]);
      if out[index].row.score.Some? {
        forall j | 0 <= j < |out| && out[j].row.score.Some? ensures out[j].score >= out[index].score {
          assert out[j].score > out[i].score;
          assert Scores(out)[j] in Scores(out);
        }
      }
    } else {
      GapOfScored(out[index], out[i]);
    }
  }

  lemma NoneBelowLowest(out: seq<Ranked>, i: nat)
    requires i < |out| && forall j | 0 <= j < |out| :: out[j].score >= out[i].score
    ensures NoneBelow(out, out[i])
  {
  }

  method GapsAt(out: seq<Ranked>, i: nat) returns (up: Option<int>, down: Option<int>)
    requires RankedList(out) && i < |out|
    ensures UnscoredLast(out) ==> GapsRight(out, out[i], up, down)
  {
    hide CountAbove;
    hide RankedList;
    hide UnscoredLast;
    hide GapUp;
    hide NextAbove;
    hide NextBelow;
    hide NoneBelow;
    up := GapToNext(out, i);
    down := GapToBelow(out, i);
    RankPositive(out, i);
    if UnscoredLast(out) {
      if out[i].rank > 1 {
        var j :| EndsGroupAbove(out, j, i) && up == GapUp(out, j, i);
        GapUpRight(out, j, i);
      }
      if forall j | 0 <= j < |out| :: out[j].score >= out[i].score {
        NoneBelowLowest(out, i);
      } else {
        var j :| StartsGroupBelow(out, j, i) && down == GapUp(out, i, j);
        GapDownRight(out, j, i);
      }
    }
  }

  lemma RankPositive(out: seq<Ranked>, i: nat)
    requires RankedList(out) && i < |out|
    ensures out[i].rank >= 1
  {
  }

  /** Neighbouring groups see the same gap from both sides: if row j's gap up leads to
      row i's score, row i has a gap down and it is the same. */
  lemma GapsMeet(out: seq<Ranked>, i: nat, j: nat, upI: Option<int>, downI: Option<int>, upJ: Option<int>, downJ: Option<int>)
    requires i < |out| && j < |out| && UnscoredLast(out)
    requires GapsRight(out, out[i], upI, downI) && GapsRight(out, out[j], upJ, downJ)
    requires upJ.Some? && out[i].score == out[j].score + upJ.value
    ensures downI == upJ
  {
    hide CountAbove;
    assert Scores(out)[j] in Scores(out) && Scores(out)[i] in Scores(out);
    assert downI.Some?;
    assert out[i].score - downI.value >= out[j].score;
  }

  /** Every gap of a table leads to the nearest score, and neighbouring groups agree. */
  ghost predicate GapTable(out: seq<Ranked>, up: seq<Option<int>>, down: seq<Option<int>>) {
    && |up| == |down| == |out|
    && (forall i | 0 <= i < |out| :: GapsRight(out, out[i], up[i], down[i]))
    && (forall i, j | 0 <= i < |out| && 0 <= j < |out| && up[j].Some? && out[i].score == out[j].score + up[j].value ::
          down[i] == up[j])
  }

  lemma GapsMakeTable(out: seq<Ranked>, up: seq<Option<int>>, down: seq<Option<int>>)
    requires |up| == |down| == |out| && UnscoredLast(out)
    requires forall i | 0 <= i < |out| :: GapsRight(out, out[i], up[i], down[i])
    ensures GapTable(out, up, down)
  {
    hide GapsRight;
    hide UnscoredLast;
    forall i, j | 0 <= i < |out| && 0 <= j < |out| && up[j].Some? && out[i].score == out[j].score + up[j].value
      ensures down[i] == up[j]
    {
      GapsMeet(out, i, j, up[i], down[i], up[j], down[j]);
    }
  }

  /** Rank the rows and measure every gap. */
  method RankTable(rows: seq<Row>, ties: seq<string>, names: NameOrder)
    returns (out: seq<Ranked>, up: seq<Option<int>>, down: seq<Option<int>>)
    requires Preorder(names)
    ensures IsRanking(rows, out, ties, names) && |up| == |down| == |out|
    ensures AboveSentinel(rows) ==> GapTable(out, up, down)
  {
    hide GapsRight;
    hide IsRanking;
    hide RankedList;
    hide UnscoredLast;
    hide GapTable;
    out := RankAll(rows, ties, names);
    RankingIsRankedList(rows, out, ties, names);
    up, down := [], [];
    for i := 0 to |out|
      invariant |up| == |down| == i
      invariant UnscoredLast(out) ==> forall j | 0 <= j < i :: GapsRight(out, out[j], up[j], down[j])
    {
      var g, h := GapsAt(out, i);
      up, down := up + [g], down + [h];
    }
    if UnscoredLast(out) {
      GapsMakeTable(out, up, down);
    }
  }

  /** A row of a ranking has the rounded score and the rank of the row it came from. */
  lemma RankedAs(rows: seq<Row>, out: seq<Ranked>, ties: seq<string>, names: NameOrder, i: nat, p: nat)
    requires IsRanking(rows, out, ties, names) && i < |out| && p < |rows| && out[i].row == rows[p]
    ensures out[i].score == Tenths(rows[p].score) && out[i].rank == RankOf(rows, p)
  {
    hide CountAbove;
    hide Sorted;
  }

  lemma RowBehind(rows: seq<Row>, out: seq<Ranked>, ties: seq<string>, names: NameOrder, j: nat) returns (q: nat)
    requires IsRanking(rows, out, ties, names) && j < |out|
    ensures q < |rows| && out[j].row == rows[q]
  {
    hide CountAbove;
    hide Sorted;
    assert RowsOf(out)[j] in multiset(RowsOf(out));
    q := IndexOf(rows, out[j].row);
  }

  /** Ranking keeps the set of scores. */
  lemma SameNextAbove(rows: seq<Row>, out: seq<Ranked>, ties: seq<string>, names: NameOrder, v: int, a: int)
    requires IsRanking(rows, out, ties, names)
    ensures NextAbove(Scores(out), v, a) <==> NextAbove(RowScores(rows), v, a)
  {
    hide IsRanking;
    hide RankedList;
    hide Scores;
    hide RowScores;
    RankingIsRankedList(rows, out, ties, names);
    assert forall t :: t in Scores(out) <==> t in multiset(Scores(out));
    assert forall t :: t in RowScores(rows) <==> t in multiset(RowScores(rows));
  }

  /** A gap read off the table and added to the student's score gives the rank of
      the group above when the class is ranked again; fewer tenths leave the rank
      alone. */
  lemma TableGapIsExact(rows: seq<Row>, out: seq<Ranked>, ties: seq<string>, names: NameOrder, i: nat, p: nat,
                        gap: int, k: int, again: seq<Ranked>, i': nat)
    requires IsRanking(rows, out, ties, names)
    requires i < |out| && p < |rows| && out[i].row == rows[p] && rows[p].score.Some?
    requires NextAbove(Scores(out), out[i].score, out[i].score + gap) && 0 < k <= gap
    requires IsRanking(Raised(rows, p, k), again, ties, names)
    requires i' < |again| && again[i'].row == Raised(rows, p, k)[p]
    ensures k < gap ==> again[i'].rank == out[i].rank
    ensures k == gap ==> forall j | 0 <= j < |out| && out[j].score == out[i].score + gap ::
                           again[i'].rank == out[j].rank < out[i].rank
  {
    hide IsRanking;
    hide RankOf;
    hide NextAbove;
    hide CountAbove;
    RankedAs(rows, out, ties, names, i, p);
    RankedAs(Raised(rows, p, k), again, ties, names, i', p);
    SameNextAbove(rows, out, ties, names, out[i].score, out[i].score + gap);
    GapIsExact(rows, p, gap, k);
    if k == gap {
      forall j | 0 <= j < |out| && out[j].score == out[i].score + gap ensures again[i'].rank == out[j].rank < out[i].rank {
        var q := RowBehind(rows, out, ties, names, j);
        RankedAs(rows, out, ties, names, j, q);
      }
    }
  }
}
