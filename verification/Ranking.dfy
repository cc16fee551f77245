/** Competition ranking of score rows. Scores are exact reals; a rounded score is
    kept as its integer number of tenths. */
module Ranking {
  import opened Wrappers
  import opened Sequences

  datatype Row = Row(studentId: string, displayName: string, score: Option<real>, raw: Option<real>,
                     normalised: map<string, real>)

  datatype Ranked = Ranked(row: Row, score: int, raw: int, rank: nat, tied: bool)

  /** Tenths of x, halves rounded up. */
  function Round1(x: real): int { (x * 10.0 + 0.5).Floor }

  /** To the nearest tenth, a half upwards. */
  lemma RoundsHalfUp(x: real)
    ensures 10.0 * x - 0.5 < Round1(x) as real <= 10.0 * x + 0.5
  {
  }

  /** A missing score sorts as minus one. */
  function Tenths(x: Option<real>): int { if x.None? then -10 else Round1(x.value) }

  /** Rows without a score stand behind every row that rounds to more than minus one. */
  lemma MissingRoundsAsMinusOne()
    ensures Tenths(None) == Round1(-1.0)
    ensures forall x :: x >= 0.0 ==> Tenths(Some(x)) > Tenths(None)
  {
  }

  function Keyed(r: Row): Ranked { Ranked(r, Tenths(r.score), Tenths(r.raw), 0, false) }

  type NameOrder = (string, string) -> bool

  function TieValue(r: Row, key: string): real { if key in r.normalised then r.normalised[key] else -1.0 }

  predicate TieLeq(a: Row, b: Row, ties: seq<string>, names: NameOrder) {
    if ties == [] then names(a.displayName, b.displayName)
    else
      var x, y := TieValue(a, ties[0]), TieValue(b, ties[0]);
      if x != y then x > y else TieLeq(a, b, ties[1..], names)
  }

  /** Higher rounded score first, then higher rounded raw score, then the
      tie-breakers in order, then the name. */
  predicate Leq(a: Ranked, b: Ranked, ties: seq<string>, names: NameOrder) {
    if a.score != b.score then a.score > b.score
    else if a.raw != b.raw then a.raw > b.raw
    else TieLeq(a.row, b.row, ties, names)
  }

  /** All tie-breakers agree up to the n-th. */
  ghost predicate AgreeUpTo(a: Row, b: Row, ties: seq<string>, n: nat) {
    n <= |ties| && forall i | 0 <= i < n :: TieBreak(a, ties[i]) == TieBreak(b, ties[i])
  }

  /** A student's percentage on a tie-breaking criterion; minus one if there is none. */
  ghost function TieBreak(r: Row, key: string): real {
    if key in r.normalised then r.normalised[key] else -1.0
  }

  lemma {:induction false} TieLeqMeans(a: Row, b: Row, ties: seq<string>, names: NameOrder)
    ensures TieLeq(a, b, ties, names) <==>
      || (exists n :: 0 <= n < |ties| && AgreeUpTo(a, b, ties, n) && TieBreak(a, ties[n]) > TieBreak(b, ties[n]))
      || (AgreeUpTo(a, b, ties, |ties|) && names(a.displayName, b.displayName))
    decreases |ties|
  {
    if ties != [] {
      var rest := ties[1..];
      TieLeqMeans(a, b, rest, names);
      if TieBreak(a, ties[0]) == TieBreak(b, ties[0]) {
        AgreeRest(a, b, ties);
        if n :| 0 <= n < |rest| && AgreeUpTo(a, b, rest, n) && TieBreak(a, rest[n]) > TieBreak(b, rest[n]) {
          assert AgreeUpTo(a, b, ties, n + 1) && ties[n + 1] == rest[n];
        }
        if n :| 0 <= n < |ties| && AgreeUpTo(a, b, ties, n) && TieBreak(a, ties[n]) > TieBreak(b, ties[n]) {
          assert AgreeUpTo(a, b, rest, n - 1) && rest[n - 1] == ties[n];
        }
      } else {
        assert AgreeUpTo(a, b, ties, 0);
        DisagreeBeyond(a, b, ties);
      }
    }
  }

  lemma DisagreeBeyond(a: Row, b: Row, ties: seq<string>)
    requires ties != [] && TieBreak(a, ties[0]) != TieBreak(b, ties[0])
    ensures forall n | 0 < n <= |ties| :: !AgreeUpTo(a, b, ties, n)
  {
  }

  lemma AgreeRest(a: Row, b: Row, ties: seq<string>)
    requires ties != [] && TieBreak(a, ties[0]) == TieBreak(b, ties[0])
    ensures forall n: nat | n < |ties| :: AgreeUpTo(a, b, ties[1..], n) <==> AgreeUpTo(a, b, ties, n + 1)
  {
    forall n: nat | n < |ties| ensures AgreeUpTo(a, b, ties[1..], n) <==> AgreeUpTo(a, b, ties, n + 1) {
      assert forall i | 0 <= i < |ties| - 1 :: ties[1..][i] == ties[i + 1];
      if AgreeUpTo(a, b, ties, n + 1) {
        forall i | 0 <= i < n ensures TieBreak(a, ties[1..][i]) == TieBreak(b, ties[1..][i]) {
          assert TieBreak(a, ties[i + 1]) == TieBreak(b, ties[i + 1]);
        }
      }
      if AgreeUpTo(a, b, ties[1..], n) {
        forall i | 0 <= i < n + 1 ensures TieBreak(a, ties[i]) == TieBreak(b, ties[i]) {
          if i > 0 {
            assert TieBreak(a, ties[1..][i - 1]) == TieBreak(b, ties[1..][i - 1]);
          }
        }
      }
    }
  }

  /** Who may stand in front of whom: the higher rounded score; at the same score the higher
      rounded raw score; then the higher percentage on the first tie-breaker that differs;
      then the name. */
  lemma LeqMeans(a: Ranked, b: Ranked, ties: seq<string>, names: NameOrder)
    ensures Leq(a, b, ties, names) <==>
      || a.score > b.score
      || (a.score == b.score && a.raw > b.raw)
      || (a.score == b.score && a.raw == b.raw
          && (exists n :: 0 <= n < |ties| && AgreeUpTo(a.row, b.row, ties, n) && TieBreak(a.row, ties[n]) > TieBreak(b.row, ties[n])))
      || (a.score == b.score && a.raw == b.raw && AgreeUpTo(a.row, b.row, ties, |ties|) && names(a.row.displayName, b.row.displayName))
  {
    hide TieLeq;
    TieLeqMeans(a.row, b.row, ties, names);
  }

  ghost predicate Preorder(names: NameOrder) {
    && (forall a, b :: names(a, b) || names(b, a))
    && (forall a, b, c :: names(a, b) && names(b, c) ==> names(a, c))
  }

  /** Lower-cased names by code point, as tuples of strings compare. */
  predicate StringLeq(a: string, b: string) {
    a == "" || (b != "" && (a[0] < b[0] || (a[0] == b[0] && StringLeq(a[1..], b[1..]))))
  }

  /** Comparing strings is comparing at the first difference, a prefix coming first. */
  lemma {:induction false} StringLeqMeans(a: string, b: string)
    ensures StringLeq(a, b) <==> a <= b || exists i :: 0 <= i < |a| && i < |b| && a[..i] == b[..i] && a[i] < b[i]
    decreases |a|
  {
    if a != "" && b != "" && a[0] == b[0] {
      StringLeqMeans(a[1..], b[1..]);
      assert a <= b <==> a[1..] <= b[1..] by {
        assert a == [a[0]] + a[1..] && b == [b[0]] + b[1..];
      }
      if i :| 0 <= i < |a| - 1 && i < |b| - 1 && a[1..][..i] == b[1..][..i] && a[1..][i] < b[1..][i] {
        assert a[..i + 1] == [a[0]] + a[1..][..i] && b[..i + 1] == [b[0]] + b[1..][..i];
        assert a[i + 1] < b[i + 1];
      }
      if i :| 0 <= i < |a| && i < |b| && a[..i] == b[..i] && a[i] < b[i] {
        assert a[1..][..i - 1] == a[..i][1..] && b[1..][..i - 1] == b[..i][1..];
        assert a[1..][i - 1] < b[1..][i - 1];
      }
    } else if a != "" && b != "" {
      assert a[..0] == b[..0];
      forall k | 0 < k <= |a| && k <= |b| ensures a[..k] != b[..k] {
        assert a[..k][0] == a[0] && b[..k][0] == b[0];
      }
    }
  }

  function ByLowered(lower: string -> string): NameOrder { (a: string, b: string) => StringLeq(lower(a), lower(b)) }

  lemma {:induction false} StringLeqTotal(a: string, b: string)
    ensures StringLeq(a, b) || StringLeq(b, a)
    decreases |a|
  {
    if a != "" && b != "" {
      StringLeqTotal(a[1..], b[1..]);
    }
  }

  lemma {:induction false} StringLeqTransitive(a: string, b: string, c: string)
    requires StringLeq(a, b) && StringLeq(b, c)
    ensures StringLeq(a, c)
    decreases |a|
  {
    if a != "" && a[0] == b[0] && b[0] == c[0] {
      StringLeqTransitive(a[1..], b[1..], c[1..]);
    }
  }

  lemma LoweredIsPreorder(lower: string -> string)
    ensures Preorder(ByLowered(lower))
    ensures forall a, b :: ByLowered(lower)(a, b) <==> StringLeq(lower(a), lower(b))
  {
    forall a, b ensures ByLowered(lower)(a, b) || ByLowered(lower)(b, a) {
      StringLeqTotal(lower(a), lower(b));
    }
    forall a, b, c | ByLowered(lower)(a, b) && ByLowered(lower)(b, c) ensures ByLowered(lower)(a, c) {
      StringLeqTransitive(lower(a), lower(b), lower(c));
    }
  }

  lemma {:induction false} TieLeqTotal(a: Row, b: Row, ties: seq<string>, names: NameOrder)
    requires Preorder(names)
    ensures TieLeq(a, b, ties, names) || TieLeq(b, a, ties, names)
    decreases |ties|
  {
    if ties != [] {
      TieLeqTotal(a, b, ties[1..], names);
    }
  }

  lemma {:induction false} TieLeqTransitive(a: Row, b: Row, c: Row, ties: seq<string>, names: NameOrder)
    requires Preorder(names) && TieLeq(a, b, ties, names) && TieLeq(b, c, ties, names)
    ensures TieLeq(a, c, ties, names)
    decreases |ties|
  {
    if ties != [] && TieValue(a, ties[0]) == TieValue(b, ties[0]) == TieValue(c, ties[0]) {
      TieLeqTransitive(a, b, c, ties[1..], names);
    }
  }

  lemma LeqTotal(a: Ranked, b: Ranked, ties: seq<string>, names: NameOrder)
    requires Preorder(names)
    ensures Leq(a, b, ties, names) || Leq(b, a, ties, names)
  {
    TieLeqTotal(a.row, b.row, ties, names);
  }

  lemma LeqTransitive(a: Ranked, b: Ranked, c: Ranked, ties: seq<string>, names: NameOrder)
    requires Preorder(names) && Leq(a, b, ties, names) && Leq(b, c, ties, names)
    ensures Leq(a, c, ties, names)
  {
    if a.score == b.score == c.score && a.raw == b.raw == c.raw {
      TieLeqTransitive(a.row, b.row, c.row, ties, names);
    }
  }

  /* A stable sort. */

  ghost predicate Sorted(s: seq<Ranked>, ties: seq<string>, names: NameOrder) {
    forall i, j | 0 <= i < j < |s| :: Leq(s[i], s[j], ties, names)
  }

  /** x goes behind every row that may stand before it. */
  function Insert(x: Ranked, s: seq<Ranked>, ties: seq<string>, names: NameOrder): seq<Ranked> {
    if s == [] || Leq(s[|s| - 1], x, ties, names) then s + [x]
    else Insert(x, s[..|s| - 1], ties, names) + [s[|s| - 1]]
  }

  function StableSort(s: seq<Ranked>, ties: seq<string>, names: NameOrder): seq<Ranked> {
    if s == [] then [] else Insert(s[|s| - 1], StableSort(s[..|s| - 1], ties, names), ties, names)
  }

  lemma {:induction false} InsertMultiset(x: Ranked, s: seq<Ranked>, ties: seq<string>, names: NameOrder)
    ensures multiset(Insert(x, s, ties, names)) == multiset(s) + multiset{x}
    ensures |Insert(x, s, ties, names)| == |s| + 1
  {
    if s != [] && !Leq(s[|s| - 1], x, ties, names) {
      InsertMultiset(x, s[..|s| - 1], ties, names);
      assert s == s[..|s| - 1] + [s[|s| - 1]];
    }
  }

  lemma {:induction false} InsertSorted(x: Ranked, s: seq<Ranked>, ties: seq<string>, names: NameOrder)
    requires Preorder(names) && Sorted(s, ties, names)
    ensures Sorted(Insert(x, s, ties, names), ties, names)
  {
    hide Leq;
    var r := Insert(x, s, ties, names);
    if s != [] {
      var y, init := s[|s| - 1], s[..|s| - 1];
      if Leq(y, x, ties, names) {
        forall i | 0 <= i < |s| ensures Leq(s[i], x, ties, names) {
          if i < |s| - 1 {
            LeqTransitive(s[i], y, x, ties, names);
          }
        }
      } else {
        InsertSorted(x, init, ties, names);
        InsertMultiset(x, init, ties, names);
        LeqTotal(x, y, ties, names);
        forall i | 0 <= i < |r| - 1 ensures Leq(r[i], y, ties, names) {
          assert r[i] in multiset(r[..|r| - 1]);
          assert r[..|r| - 1] == Insert(x, init, ties, names);
          assert r[i] == x || r[i] in init;
        }
      }
    }
  }

  lemma {:induction false} StableSortSorts(s: seq<Ranked>, ties: seq<string>, names: NameOrder)
    requires Preorder(names)
    ensures Sorted(StableSort(s, ties, names), ties, names)
    ensures multiset(StableSort(s, ties, names)) == multiset(s) && |StableSort(s, ties, names)| == |s|
  {
    hide Leq;
    if s != [] {
      var init, x := s[..|s| - 1], s[|s| - 1];
      StableSortSorts(init, ties, names);
      InsertSorted(x, StableSort(init, ties, names), ties, names);
      InsertMultiset(x, StableSort(init, ties, names), ties, names);
      assert s == init + [x];
    }
  }

  /** Rows that compare equal to k. */
  function Alike(k: Ranked, ties: seq<string>, names: NameOrder): Ranked -> bool {
    (x: Ranked) => Leq(x, k, ties, names) && Leq(k, x, ties, names)
  }

  lemma {:induction false} InsertStable(x: Ranked, s: seq<Ranked>, k: Ranked, ties: seq<string>, names: NameOrder)
    requires Preorder(names) && Sorted(s, ties, names)
    ensures Where(Insert(x, s, ties, names), Alike(k, ties, names))
            == Where(s, Alike(k, ties, names)) + (if Alike(k, ties, names)(x) then [x] else [])
  {
    hide Where;
    hide Leq;
    var p := Alike(k, ties, names);
    if s == [] || Leq(s[|s| - 1], x, ties, names) {
      WhereAppend(s, x, p);
    } else {
      var y, init := s[|s| - 1], s[..|s| - 1];
      InsertStable(x, init, k, ties, names);
      WhereAppend(Insert(x, init, ties, names), y, p);
      WhereAppend(init, y, p);
      assert init + [y] == s;
      if p(x) && p(y) {
        LeqTransitive(y, k, x, ties, names);
      }
    }
  }

  /** Rows that compare equal keep the order they came in. */
  lemma {:induction false} StableSortStable(s: seq<Ranked>, k: Ranked, ties: seq<string>, names: NameOrder)
    requires Preorder(names)
    ensures Where(StableSort(s, ties, names), Alike(k, ties, names)) == Where(s, Alike(k, ties, names))
  {
    hide Leq;
    if s != [] {
      var init, x := s[..|s| - 1], s[|s| - 1];
      StableSortStable(init, k, ties, names);
      StableSortSorts(init, ties, names);
      InsertStable(x, StableSort(init, ties, names), k, ties, names);
    }
  }
}
