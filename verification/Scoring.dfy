/** Weighted scores: entries are totalled per criterion, criteria without entries
    are left out and the remaining weights are rescaled to a hundred. */
module Scoring {
  import opened Wrappers
  import opened Sequences

  datatype Entry = Entry(key: string, earned: Option<real>, possible: Option<real>)

  datatype Slot = Slot(earned: real, possible: real)

  datatype Part = Part(key: string, total: Option<Slot>, normalised: Option<real>, weight: real,
                       effective: real, points: real, missing: bool)

  datatype Score = Score(score: Option<real>, parts: seq<Part>, missingKeys: seq<string>)

  type Weights = map<string, real>

  /* Totals. */

  predicate CountsFor(e: Entry, key: string) { e.key == key && e.earned.Some? && e.possible.Some? }

  function Add(slot: Option<Slot>, e: Entry): Slot
    requires e.earned.Some? && e.possible.Some?
  {
    var s := slot.GetOr(Slot(0.0, 0.0));
    Slot(s.earned + e.earned.value, s.possible + e.possible.value)
  }

  function Total(entries: seq<Entry>, key: string): Option<Slot> {
    if entries == [] then None
    else
      var n := |entries| - 1;
      var before := Total(entries[..n], key);
      if CountsFor(entries[n], key) then Some(Add(before, entries[n])) else before
  }

  method Aggregate(entries: seq<Entry>) returns (out: map<string, Slot>)
    ensures forall k :: if k in out then Total(entries, k) == Some(out[k]) else Total(entries, k) == None
  {
    out := map[];
    for i := 0 to |entries|
      invariant forall k :: if k in out then Total(entries[..i], k) == Some(out[k]) else Total(entries[..i], k) == None
    {
      var e := entries[i];
      assert entries[..i + 1][..i] == entries[..i];
      if e.earned.Some? && e.possible.Some? {
        var slot := if e.key in out then out[e.key] else Slot(0.0, 0.0);
        out := out[e.key := Slot(slot.earned + e.earned.value, slot.possible + e.possible.value)];
      }
    }
    assert entries[..|entries|] == entries;
  }

  function Plus(a: Option<Slot>, b: Option<Slot>): Option<Slot> {
    if a.None? then b else if b.None? then a
    else Some(Slot(a.value.earned + b.value.earned, a.value.possible + b.value.possible))
  }

  lemma {:induction false} TotalSplit(a: seq<Entry>, b: seq<Entry>, key: string)
    ensures Total(a + b, key) == Plus(Total(a, key), Total(b, key))
    decreases |b|
  {
    if b == [] {
      assert a + b == a;
    } else {
      assert (a + b)[..|a + b| - 1] == a + b[..|b| - 1];
      TotalSplit(a, b[..|b| - 1], key);
    }
  }

  lemma TotalOne(e: Entry, key: string)
    ensures Total([e], key) == if e.key == key && e.earned.Some? && e.possible.Some?
                               then Some(Slot(e.earned.value, e.possible.value)) else None
  {
    assert [e][..0] == [];
  }

  lemma TotalWithout(a: seq<Entry>, i: nat, key: string)
    requires i < |a|
    ensures Total(a, key) == Plus(Total([a[i]], key), Total(a[..i] + a[i + 1..], key))
  {
    hide Total;
    TotalSplit(a[..i], [a[i]] + a[i + 1..], key);
    TotalSplit([a[i]], a[i + 1..], key);
    TotalSplit(a[..i], a[i + 1..], key);
    assert a == a[..i] + ([a[i]] + a[i + 1..]);
  }

  ghost predicate SameTotals(a: seq<Entry>, b: seq<Entry>) { forall k :: Total(a, k) == Total(b, k) }

  lemma {:induction false} TotalPermuted(a: seq<Entry>, b: seq<Entry>, key: string)
    requires multiset(a) == multiset(b)
    ensures Total(a, key) == Total(b, key)
    decreases |a|
  {
    hide Total;
    assert |a| == |multiset(a)| == |multiset(b)| == |b|;
    if a == [] {
      assert a == b;
    } else {
      assert a[0] in multiset(a);
      var i := IndexOf(b, a[0]);
      MultisetWithout(a, 0);
      MultisetWithout(b, i);
      TotalPermuted(a[..0] + a[1..], b[..i] + b[i + 1..], key);
      TotalWithout(a, 0, key);
      TotalWithout(b, i, key);
    }
  }

  lemma PermutingKeepsTotals(a: seq<Entry>, b: seq<Entry>)
    requires multiset(a) == multiset(b)
    ensures SameTotals(a, b)
  {
    forall k ensures Total(a, k) == Total(b, k) {
      TotalPermuted(a, b, k);
    }
  }

  /** Recording one piece of work as two entries changes no total. */
  lemma SplittingKeepsTotals(before: seq<Entry>, after: seq<Entry>, key: string, e1: real, p1: real, e2: real, p2: real)
    ensures SameTotals(before + [Entry(key, Some(e1 + e2), Some(p1 + p2))] + after,
                       before + [Entry(key, Some(e1), Some(p1)), Entry(key, Some(e2), Some(p2))] + after)
  {
    hide Total;
    var whole, one, two := Entry(key, Some(e1 + e2), Some(p1 + p2)), Entry(key, Some(e1), Some(p1)), Entry(key, Some(e2), Some(p2));
    forall k ensures Total(before + [whole] + after, k) == Total(before + [one, two] + after, k) {
      TotalSplit(before + [whole], after, k);
      TotalSplit(before, [whole], k);
      TotalSplit(before + [one, two], after, k);
      TotalSplit(before, [one, two], k);
      TotalSplit([one], [two], k);
      assert [one] + [two] == [one, two];
      TotalOne(whole, k);
      TotalOne(one, k);
      TotalOne(two, k);
    }
  }

  /* Sums over sets of keys. */

  ghost function SumOver(keys: set<string>, f: string -> real): real {
    if keys == {} then 0.0
    else
      var k :| k in keys;
      f(k) + SumOver(keys - {k}, f)
  }

  /** The sum does not depend on the order in which the keys come. */
  lemma {:induction false} SumOverRemove(keys: set<string>, f: string -> real, k: string)
    requires k in keys
    ensures SumOver(keys, f) == f(k) + SumOver(keys - {k}, f)
  {
    var j :| j in keys && SumOver(keys, f) == f(j) + SumOver(keys - {j}, f);
    if j != k {
      SumOverRemove(keys - {j}, f, k);
      SumOverRemove(keys - {k}, f, j);
      assert keys - {j} - {k} == keys - {k} - {j};
    }
  }

  lemma {:induction false} SumOverScaled(keys: set<string>, f: string -> real, g: string -> real, c: real)
    requires forall k | k in keys :: g(k) == c * f(k)
    ensures SumOver(keys, g) == c * SumOver(keys, f)
  {
    if keys != {} {
      var k :| k in keys;
      SumOverRemove(keys, f, k);
      SumOverRemove(keys, g, k);
      SumOverScaled(keys - {k}, f, g, c);
    }
  }

  lemma {:induction false} SumOverNonNegative(keys: set<string>, f: string -> real)
    requires forall k | k in keys :: f(k) >= 0.0
    ensures SumOver(keys, f) >= 0.0
    ensures SumOver(keys, f) == 0.0 <==> forall k | k in keys :: f(k) == 0.0
  {
    if keys != {} {
      var k :| k in keys;
      SumOverRemove(keys, f, k);
      SumOverNonNegative(keys - {k}, f);
      assert forall j | j in keys :: j == k || j in keys - {k};
    }
  }

  /** Keys that contribute nothing can be left out. */
  lemma {:induction false} SumOverSupport(keys: set<string>, f: string -> real, support: set<string>)
    requires forall k | k in keys && k !in support :: f(k) == 0.0
    ensures SumOver(keys, f) == SumOver(keys * support, f)
  {
    if keys <= support {
      assert keys * support == keys;
    } else {
      var k :| k in keys && k !in support;
      SumOverRemove(keys, f, k);
      SumOverSupport(keys - {k}, f, support);
      assert (keys - {k}) * support == keys * support;
    }
  }

  method SumKeys(keys: set<string>, f: string -> real) returns (total: real)
    ensures total == SumOver(keys, f)
  {
    var rest := keys;
    total := 0.0;
    while rest != {}
      invariant rest <= keys && total + SumOver(rest, f) == SumOver(keys, f)
      decreases rest
    {
      var k :| k in rest;
      SumOverRemove(rest, f, k);
      total := total + f(k);
      rest := rest - {k};
    }
  }

  /* Scores. */

  function Weight(w: Weights): string -> real { (k: string) => if k in w then w[k] else 0.0 }

  predicate Recorded(entries: seq<Entry>, key: string) {
    var t := Total(entries, key);
    t.Some? && t.value.possible > 0.0
  }

  predicate Present(entries: seq<Entry>, w: Weights, key: string) { Recorded(entries, key) && Weight(w)(key) > 0.0 }

  function PresentKeys(entries: seq<Entry>, criteria: seq<string>, w: Weights): set<string> {
    set k | k in criteria && Present(entries, w, k)
  }

  function Percentage(s: Slot): Option<real> {
    if s.possible <= 0.0 then None else Some(100.0 * s.earned / s.possible)
  }

  function Rescaled(weight: real, weightSum: real): real {
    if weightSum == 0.0 then 0.0 else weight / weightSum * 100.0
  }

  function PartOf(total: Option<Slot>, weight: real, weightSum: real, key: string): Part {
    if total.None? || total.value.possible <= 0.0 then
      Part(key, None, None, weight, 0.0, 0.0, true)
    else
      var n := Percentage(total.value);
      var effective := Rescaled(weight, weightSum);
      Part(key, total, n, weight, effective, n.GetOr(0.0) * effective / 100.0, false)
  }

  ghost function PartFor(entries: seq<Entry>, w: Weights, weightSum: real): string -> Part {
    (k: string) => PartOf(Total(entries, k), Weight(w)(k), weightSum, k)
  }

  function Points(parts: seq<Part>): real {
    if parts == [] then 0.0 else Points(parts[..|parts| - 1]) + parts[|parts| - 1].points
  }

  function IsMissed(): Part -> bool { (p: Part) => p.missing && p.weight > 0.0 }

  function KeyOfPart(): Part -> string { (p: Part) => p.key }

  ghost function WeightSum(entries: seq<Entry>, criteria: seq<string>, w: Weights): real {
    SumOver(PresentKeys(entries, criteria, w), Weight(w))
  }

  ghost function PartsOf(entries: seq<Entry>, criteria: seq<string>, w: Weights): seq<Part> {
    Mapped(criteria, PartFor(entries, w, WeightSum(entries, criteria, w)))
  }

  ghost function Scored(entries: seq<Entry>, criteria: seq<string>, w: Weights): Score {
    var parts := PartsOf(entries, criteria, w);
    Score(if WeightSum(entries, criteria, w) == 0.0 then None else Some(Points(parts)),
          parts, Mapped(Where(parts, IsMissed()), KeyOfPart()))
  }

  lemma PointsAppend(parts: seq<Part>, p: Part)
    ensures Points(parts + [p]) == Points(parts) + p.points
  {
    assert (parts + [p])[..|parts|] == parts;
  }

  method ScoreParts(agg: map<string, Slot>, ghost entries: seq<Entry>, criteria: seq<string>, w: Weights, weightSum: real)
    returns (parts: seq<Part>, score: real)
    requires forall k :: if k in agg then Total(entries, k) == Some(agg[k]) else Total(entries, k) == None
    ensures parts == Mapped(criteria, PartFor(entries, w, weightSum)) && score == Points(parts)
  {
    hide Total;
    hide PartOf;
    hide Weight;
    parts, score := [], 0.0;
    for i := 0 to |criteria|
      invariant |parts| == i && forall j | 0 <= j < i :: parts[j] == PartFor(entries, w, weightSum)(criteria[j])
      invariant score == Points(parts)
    {
      var k := criteria[i];
      var part := PartOf(if k in agg then Some(agg[k]) else None, Weight(w)(k), weightSum, k);
      PointsAppend(parts, part);
      parts := parts + [part];
      score := score + part.points;
    }
  }

  method ScoreStudent(entries: seq<Entry>, criteria: seq<string>, w: Weights) returns (r: Score)
    ensures r == Scored(entries, criteria, w)
  {
    hide Total;
    hide PartFor;
    hide SumOver;
    hide Points;
    hide Where;
    hide Mapped;
    var agg := Aggregate(entries);
    var presentKeys := set k | k in criteria && k in agg && agg[k].possible > 0.0 && Weight(w)(k) > 0.0;
    assert presentKeys == PresentKeys(entries, criteria, w);
    var weightSum := SumKeys(presentKeys, Weight(w));
    var parts, score := ScoreParts(agg, entries, criteria, w, weightSum);
    r := Score(if weightSum == 0.0 then None else Some(score), parts, Mapped(Where(parts, IsMissed()), KeyOfPart()));
  }

  ghost predicate NonNegative(w: Weights) { forall k | k in w :: w[k] >= 0.0 }

  /** There is a score exactly when some criterion counts. */
  lemma ScoreIffPresent(entries: seq<Entry>, criteria: seq<string>, w: Weights)
    ensures WeightSum(entries, criteria, w) >= 0.0
    ensures Scored(entries, criteria, w).score.Some? <==> exists k :: k in criteria && Present(entries, w, k)
    ensures forall k :: Present(entries, w, k) <==>
      k in w && w[k] > 0.0 && Total(entries, k).Some? && Total(entries, k).value.possible > 0.0
  {
    var keys := PresentKeys(entries, criteria, w);
    SumOverNonNegative(keys, Weight(w));
    if k :| k in criteria && Present(entries, w, k) {
      assert k in keys && Weight(w)(k) != 0.0;
    }
  }

  /** An entry that is not fully recorded counts for nothing. */
  lemma UnrecordedEntryDropsOut(before: seq<Entry>, e: Entry, after: seq<Entry>, criteria: seq<string>, w: Weights)
    requires e.earned.None? || e.possible.None?
    ensures Scored(before + [e] + after, criteria, w) == Scored(before + after, criteria, w)
  {
    hide Total;
    hide Scored;
    forall k ensures Total(before + [e] + after, k) == Total(before + after, k) {
      TotalSplit(before + [e], after, k);
      TotalSplit(before, [e], k);
      TotalSplit(before, after, k);
      TotalOne(e, k);
    }
    ScoreByTotals(before + [e] + after, before + after, criteria, w);
  }

  /** The parts, one for each listed criterion: what was recorded, its percentage, its weight,
      its share of the weights that count and its points. */
  ghost predicate PartExplained(p: Part, key: string, entries: seq<Entry>, criteria: seq<string>, w: Weights) {
    var t, weight := Total(entries, key), if key in w then w[key] else 0.0;
    && p.key == key && p.weight == weight
    && (p.missing <==> t.None? || t.value.possible <= 0.0)
    && (p.missing ==> p.total.None? && p.normalised.None? && p.effective == 0.0 && p.points == 0.0)
    && (!p.missing ==>
          && p.total == t && p.normalised == Some(100.0 * t.value.earned / t.value.possible)
          && (WeightSum(entries, criteria, w) == 0.0 ==> p.effective == 0.0)
          && (WeightSum(entries, criteria, w) > 0.0 ==> p.effective * WeightSum(entries, criteria, w) == 100.0 * weight)
          && p.points * 100.0 == p.normalised.value * p.effective)
  }

  lemma PartsAre(entries: seq<Entry>, criteria: seq<string>, w: Weights)
    ensures var parts := Scored(entries, criteria, w).parts;
      |parts| == |criteria| && forall i | 0 <= i < |parts| :: PartExplained(parts[i], criteria[i], entries, criteria, w)
  {
    hide Total;
    hide WeightSum;
    hide PartExplained;
    hide PartFor;
    var sum := WeightSum(entries, criteria, w);
    forall i | 0 <= i < |criteria| ensures PartExplained(PartFor(entries, w, sum)(criteria[i]), criteria[i], entries, criteria, w) {
      OnePartIs(entries, criteria, w, criteria[i]);
    }
  }

  lemma OnePartIs(entries: seq<Entry>, criteria: seq<string>, w: Weights, key: string)
    ensures PartExplained(PartFor(entries, w, WeightSum(entries, criteria, w))(key), key, entries, criteria, w)
  {
    hide Total;
    hide WeightSum;
    hide Rescaled;
    var sum, weight := WeightSum(entries, criteria, w), Weight(w)(key);
    RescaledIs(weight, sum);
    assert PartFor(entries, w, sum)(key) == PartOf(Total(entries, key), weight, sum, key);
  }

  lemma RescaledIs(weight: real, sum: real)
    ensures sum == 0.0 ==> Rescaled(weight, sum) == 0.0
    ensures sum > 0.0 ==> Rescaled(weight, sum) * sum == 100.0 * weight
  {
    if sum > 0.0 {
      var q := weight / sum;
      assert q * sum == weight;
      assert (q * 100.0) * sum == 100.0 * (q * sum);
    }
  }

  /** The missing keys are the listed criteria with a positive weight for which nothing was
      recorded, in the order of the list. */
  lemma MissingKeysAre(entries: seq<Entry>, criteria: seq<string>, w: Weights)
    ensures Scored(entries, criteria, w).missingKeys == Where(criteria, IsAwaited(entries, w))
  {
    hide Total;
    hide PartFor;
    hide Where;
    PartsAwaited(entries, criteria, w);
    hide IsAwaited;
    MissedAre(entries, criteria, w, PartFor(entries, w, WeightSum(entries, criteria, w)));
  }

  function IsAwaited(entries: seq<Entry>, w: Weights): string -> bool {
    (k: string) => k in w && w[k] > 0.0 && (Total(entries, k).None? || Total(entries, k).value.possible <= 0.0)
  }

  lemma {:induction false} MissedAre(entries: seq<Entry>, criteria: seq<string>, w: Weights, f: string -> Part)
    requires forall k :: f(k).key == k && (f(k).missing && f(k).weight > 0.0 <==> IsAwaited(entries, w)(k))
    ensures Mapped(Where(Mapped(criteria, f), IsMissed()), KeyOfPart()) == Where(criteria, IsAwaited(entries, w))
    decreases |criteria|
  {
    hide Total;
    hide IsAwaited;
    if criteria != [] {
      var n := |criteria| - 1;
      MissedAre(entries, criteria[..n], w, f);
      assert Mapped(criteria, f)[..n] == Mapped(criteria[..n], f);
    }
  }

  lemma PartsAwaited(entries: seq<Entry>, criteria: seq<string>, w: Weights)
    ensures var f := PartFor(entries, w, WeightSum(entries, criteria, w));
      forall k :: f(k).key == k && (f(k).missing && f(k).weight > 0.0 <==> IsAwaited(entries, w)(k))
  {
    hide Total;
    hide WeightSum;
    var sum := WeightSum(entries, criteria, w);
    var f := PartFor(entries, w, sum);
    forall k ensures f(k).key == k && (f(k).missing && f(k).weight > 0.0 <==> IsAwaited(entries, w)(k)) {
      assert f(k) == PartOf(Total(entries, k), Weight(w)(k), sum, k);
    }
  }

  /* Effective weights. */

  function SumEffective(parts: seq<Part>): real {
    if parts == [] then 0.0 else SumEffective(parts[..|parts| - 1]) + parts[|parts| - 1].effective
  }

  /** No criterion that counts is listed twice. */
  ghost predicate PresentOnce(entries: seq<Entry>, criteria: seq<string>, w: Weights) {
    forall i, j | 0 <= i < j < |criteria| :: Present(entries, w, criteria[i]) ==> criteria[i] != criteria[j]
  }

  function WeightIfRecorded(entries: seq<Entry>, w: Weights): string -> real {
    (k: string) => if Recorded(entries, k) then Weight(w)(k) else 0.0
  }

  function SumListed(criteria: seq<string>, f: string -> real): real {
    if criteria == [] then 0.0 else SumListed(criteria[..|criteria| - 1], f) + f(criteria[|criteria| - 1])
  }

  lemma {:induction false} ListedAgainstSet(entries: seq<Entry>, criteria: seq<string>, w: Weights)
    requires NonNegative(w)
    ensures SumListed(criteria, WeightIfRecorded(entries, w)) >= WeightSum(entries, criteria, w)
    ensures SumListed(criteria, WeightIfRecorded(entries, w)) == WeightSum(entries, criteria, w) <==> PresentOnce(entries, criteria, w)
    decreases |criteria|
  {
    hide Recorded;
    if criteria != [] {
      var n := |criteria| - 1;
      var init, k := criteria[..n], criteria[n];
      ListedAgainstSet(entries, init, w);
      assert forall j :: j in criteria <==> j in init || j == k;
      var keys := PresentKeys(entries, criteria, w);
      if Present(entries, w, k) && k !in init {
        SumOverRemove(keys, Weight(w), k);
        assert keys - {k} == PresentKeys(entries, init, w);
      } else {
        assert keys == PresentKeys(entries, init, w);
      }
      PresentOnceLast(entries, criteria, w);
    }
  }

  lemma PresentOnceLast(entries: seq<Entry>, criteria: seq<string>, w: Weights)
    requires criteria != []
    ensures var n := |criteria| - 1;
      PresentOnce(entries, criteria, w) <==>
        PresentOnce(entries, criteria[..n], w) && !(Present(entries, w, criteria[n]) && criteria[n] in criteria[..n])
  {
    var n := |criteria| - 1;
    var init := criteria[..n];
    if PresentOnce(entries, init, w) && !(Present(entries, w, criteria[n]) && criteria[n] in init) {
      forall i, j | 0 <= i < j < |criteria| && Present(entries, w, criteria[i]) ensures criteria[i] != criteria[j] {
        assert init[i] in init;
        if j < n {
          assert init[i] != init[j];
        }
      }
    }
    if PresentOnce(entries, criteria, w) {
      forall i, j | 0 <= i < j < n && Present(entries, w, init[i]) ensures init[i] != init[j] {
        assert criteria[i] != criteria[j];
      }
    }
  }

  lemma EffectiveOf(entries: seq<Entry>, w: Weights, weightSum: real, key: string)
    requires weightSum > 0.0
    ensures PartFor(entries, w, weightSum)(key).effective == Rescaled(WeightIfRecorded(entries, w)(key), weightSum)
  {
    hide Total;
    hide Weight;
    assert Rescaled(0.0, weightSum) == 0.0;
    assert WeightIfRecorded(entries, w)(key) == if Recorded(entries, key) then Weight(w)(key) else 0.0;
    assert PartFor(entries, w, weightSum)(key) == PartOf(Total(entries, key), Weight(w)(key), weightSum, key);
  }

  lemma NothingRescaled(whole: real)
    ensures Rescaled(0.0, whole) == 0.0
  {
  }

  lemma AddShares(a: real, b: real, whole: real)
    requires whole > 0.0
    ensures Rescaled(a + b, whole) == Rescaled(a, whole) + Rescaled(b, whole)
  {
  }

  lemma {:induction false} EffectiveIsShare(entries: seq<Entry>, criteria: seq<string>, w: Weights, weightSum: real)
    requires weightSum > 0.0
    ensures SumEffective(Mapped(criteria, PartFor(entries, w, weightSum)))
            == Rescaled(SumListed(criteria, WeightIfRecorded(entries, w)), weightSum)
    decreases |criteria|
  {
    hide Rescaled;
    hide WeightIfRecorded;
    hide PartFor;
    var parts := Mapped(criteria, PartFor(entries, w, weightSum));
    if criteria == [] {
      NothingRescaled(weightSum);
    } else {
      var n := |criteria| - 1;
      EffectiveIsShare(entries, criteria[..n], w, weightSum);
      EffectiveOf(entries, w, weightSum, criteria[n]);
      AddShares(SumListed(criteria[..n], WeightIfRecorded(entries, w)), WeightIfRecorded(entries, w)(criteria[n]), weightSum);
      assert parts[..n] == Mapped(criteria[..n], PartFor(entries, w, weightSum));
    }
  }

  lemma ShareIsHundred(part: real, whole: real)
    requires whole > 0.0
    ensures Rescaled(part, whole) == 100.0 <==> part == whole
  {
    assert part / whole * whole == part;
  }

  /** The rescaled weights sum to a hundred exactly when no criterion that counts is
      listed twice; in particular when the criteria are distinct. */
  lemma EffectiveWeightsSumTo100(entries: seq<Entry>, criteria: seq<string>, w: Weights)
    requires NonNegative(w) && exists k :: k in criteria && Present(entries, w, k)
    ensures SumEffective(Scored(entries, criteria, w).parts) == 100.0 <==> PresentOnce(entries, criteria, w)
  {
    hide Present;
    hide Rescaled;
    ScoreIffPresent(entries, criteria, w);
    var sum := WeightSum(entries, criteria, w);
    EffectiveIsShare(entries, criteria, w, sum);
    ListedAgainstSet(entries, criteria, w);
    ShareIsHundred(SumListed(criteria, WeightIfRecorded(entries, w)), sum);
  }

  /** Eight of ten points on a criterion that is listed twice score 160. */
  lemma ListedTwiceCountsTwice()
    ensures var entries, w := [Entry("hw", Some(8.0), Some(10.0))], map["hw" := 1.0];
      var r := Scored(entries, ["hw", "hw"], w);
      r.score == Some(160.0) && SumEffective(r.parts) == 200.0
  {
    var entries, w, criteria := [Entry("hw", Some(8.0), Some(10.0))], map["hw" := 1.0], ["hw", "hw"];
    TotalOne(entries[0], "hw");
    assert Total(entries, "hw") == Some(Slot(8.0, 10.0));
    assert PresentKeys(entries, criteria, w) == {"hw"};
    SumOverRemove({"hw"}, Weight(w), "hw");
    assert {"hw"} - {"hw"} == {};
    assert WeightSum(entries, criteria, w) == 1.0;
    TwoAlike(PartFor(entries, w, 1.0)("hw"));
    assert PartsOf(entries, criteria, w) == [PartFor(entries, w, 1.0)("hw"), PartFor(entries, w, 1.0)("hw")];
  }

  lemma TwoAlike(p: Part)
    ensures Points([p, p]) == p.points + p.points && SumEffective([p, p]) == p.effective + p.effective
  {
    assert [p, p][..1] == [p] && [p][..0] == [];
    assert Points([p]) == p.points && SumEffective([p]) == p.effective;
  }

  lemma Distributes(a: real, x: real, y: real)
    ensures a * (x + y) == a * x + a * y
  {
  }

  lemma {:induction false} PointsBetween(parts: seq<Part>, lo: real, hi: real)
    requires forall i | 0 <= i < |parts| ::
      parts[i].effective >= 0.0 && lo * parts[i].effective <= parts[i].points * 100.0 <= hi * parts[i].effective
    ensures lo * SumEffective(parts) <= Points(parts) * 100.0 <= hi * SumEffective(parts)
  {
    if parts != [] {
      var init, p := parts[..|parts| - 1], parts[|parts| - 1];
      PointsBetween(init, lo, hi);
      Distributes(lo, SumEffective(init), p.effective);
      Distributes(hi, SumEffective(init), p.effective);
    }
  }

  lemma Weighted(n: real, effective: real, lo: real, hi: real)
    requires effective >= 0.0 && (effective > 0.0 ==> lo <= n <= hi)
    ensures lo * effective <= n * effective / 100.0 * 100.0 <= hi * effective
  {
  }

  ghost predicate PresentWithin(entries: seq<Entry>, criteria: seq<string>, w: Weights, lo: real, hi: real) {
    forall k | k in criteria && Present(entries, w, k) :: lo <= Percentage(Total(entries, k).value).GetOr(0.0) <= hi
  }

  lemma PartBetween(entries: seq<Entry>, w: Weights, weightSum: real, k: string, lo: real, hi: real)
    requires weightSum > 0.0 && Weight(w)(k) >= 0.0
    requires Present(entries, w, k) ==> lo <= Percentage(Total(entries, k).value).GetOr(0.0) <= hi
    ensures var p := PartFor(entries, w, weightSum)(k);
      p.effective >= 0.0 && lo * p.effective <= p.points * 100.0 <= hi * p.effective
  {
    hide Total;
    var p := PartFor(entries, w, weightSum)(k);
    if Recorded(entries, k) {
      Weighted(Percentage(Total(entries, k).value).GetOr(0.0), p.effective, lo, hi);
    } else {
      assert p.effective == 0.0 && p.points == 0.0;
    }
  }

  /** The score lies between any bounds on the percentages that count, so between the
      least and the greatest of them. */
  lemma ScoreBetween(entries: seq<Entry>, criteria: seq<string>, w: Weights, lo: real, hi: real)
    requires NonNegative(w) && PresentOnce(entries, criteria, w) && PresentWithin(entries, criteria, w, lo, hi)
    ensures Scored(entries, criteria, w).score.Some? ==> lo <= Scored(entries, criteria, w).score.value <= hi
  {
    hide Total;
    hide Percentage;
    hide PresentOnce;
    hide Present;
    hide PartFor;
    var sum := WeightSum(entries, criteria, w);
    ScoreIffPresent(entries, criteria, w);
    if sum != 0.0 {
      var parts := PartsOf(entries, criteria, w);
      forall i | 0 <= i < |parts|
        ensures parts[i].effective >= 0.0
        ensures lo * parts[i].effective <= parts[i].points * 100.0 <= hi * parts[i].effective
      {
        assert criteria[i] in criteria;
        PartBetween(entries, w, sum, criteria[i], lo, hi);
      }
      PointsBetween(parts, lo, hi);
      EffectiveWeightsSumTo100(entries, criteria, w);
    }
  }

  /** What a criterion brings into the weighted sum: weight times percentage. */
  function Worth(entries: seq<Entry>, w: Weights): string -> real {
    (k: string) =>
      if Present(entries, w, k) then Weight(w)(k) * (100.0 * Total(entries, k).value.earned / Total(entries, k).value.possible) else 0.0
  }

  lemma {:induction false} ListedIsSet(entries: seq<Entry>, criteria: seq<string>, w: Weights, f: string -> real)
    requires PresentOnce(entries, criteria, w) && forall k | !Present(entries, w, k) :: f(k) == 0.0
    ensures SumListed(criteria, f) == SumOver(PresentKeys(entries, criteria, w), f)
    decreases |criteria|
  {
    hide Present;
    if criteria != [] {
      var n := |criteria| - 1;
      var init, k := criteria[..n], criteria[n];
      PresentOnceLast(entries, criteria, w);
      ListedIsSet(entries, init, w, f);
      assert forall j :: j in criteria <==> j in init || j == k;
      var keys := PresentKeys(entries, criteria, w);
      if Present(entries, w, k) {
        SumOverRemove(keys, f, k);
        assert keys - {k} == PresentKeys(entries, init, w);
      } else {
        assert keys == PresentKeys(entries, init, w);
      }
    }
  }

  lemma PointsTimesSum(n: real, weight: real, sum: real)
    requires sum > 0.0
    ensures n * Rescaled(weight, sum) / 100.0 * sum == weight * n
  {
    var q := weight / sum;
    assert q * sum == weight;
    assert n * (q * 100.0) / 100.0 == n * q;
    assert (n * q) * sum == n * (q * sum);
  }

  lemma PercentageIs(s: Slot)
    requires s.possible > 0.0
    ensures Percentage(s) == Some(100.0 * s.earned / s.possible)
  {
  }

  lemma PartWorth(entries: seq<Entry>, w: Weights, sum: real, k: string)
    requires sum > 0.0 && Weight(w)(k) >= 0.0
    ensures PartFor(entries, w, sum)(k).points * sum == Worth(entries, w)(k)
  {
    hide Total;
    hide Percentage;
    hide Weight;
    hide Rescaled;
    var p := PartFor(entries, w, sum)(k);
    assert p == PartOf(Total(entries, k), Weight(w)(k), sum, k);
    assert Worth(entries, w)(k)
      == if Present(entries, w, k) then Weight(w)(k) * (100.0 * Total(entries, k).value.earned / Total(entries, k).value.possible) else 0.0;
    if Recorded(entries, k) {
      PercentageIs(Total(entries, k).value);
      PointsTimesSum(Percentage(Total(entries, k).value).GetOr(0.0), Weight(w)(k), sum);
    }
  }

  lemma {:induction false} PointsAreWorth(entries: seq<Entry>, criteria: seq<string>, w: Weights, sum: real)
    requires sum > 0.0 && NonNegative(w)
    ensures Points(Mapped(criteria, PartFor(entries, w, sum))) * sum == SumListed(criteria, Worth(entries, w))
    decreases |criteria|
  {
    hide PartFor;
    hide Worth;
    if criteria != [] {
      var n := |criteria| - 1;
      PointsAreWorth(entries, criteria[..n], w, sum);
      PartWorth(entries, w, sum, criteria[n]);
      PointsOfLast(criteria[..n], criteria[n], PartFor(entries, w, sum));
      assert criteria == criteria[..n] + [criteria[n]];
      Distributes(sum, Points(Mapped(criteria[..n], PartFor(entries, w, sum))), PartFor(entries, w, sum)(criteria[n]).points);
    }
  }

  /** The score is the weighted mean of the percentages that count: the rescaling,
      the points and the loop over parts amount to this. */
  lemma ScoreIsWeightedMean(entries: seq<Entry>, criteria: seq<string>, w: Weights)
    requires NonNegative(w) && PresentOnce(entries, criteria, w) && Scored(entries, criteria, w).score.Some?
    ensures Scored(entries, criteria, w).score.value * SumOver(PresentKeys(entries, criteria, w), Weight(w))
            == SumOver(PresentKeys(entries, criteria, w), Worth(entries, w))
  {
    hide Present;
    hide PartFor;
    hide PresentOnce;
    hide Points;
    hide SumOver;
    hide Worth;
    hide Weight;
    hide NonNegative;
    hide SumListed;
    hide Where;
    hide Mapped;
    ScoreIffPresent(entries, criteria, w);
    PointsAreWorth(entries, criteria, w, WeightSum(entries, criteria, w));
    WorthOnlyIfPresent(entries, w);
    ListedIsSet(entries, criteria, w, Worth(entries, w));
  }

  lemma WorthOnlyIfPresent(entries: seq<Entry>, w: Weights)
    ensures forall k | !Present(entries, w, k) :: Worth(entries, w)(k) == 0.0
  {
    hide Present;
  }

  /** Entries earn between nothing and everything. */
  ghost predicate Fair(entries: seq<Entry>) {
    forall i | 0 <= i < |entries| && entries[i].earned.Some? && entries[i].possible.Some? ::
      0.0 <= entries[i].earned.value <= entries[i].possible.value
  }

  lemma {:induction false} FairTotal(entries: seq<Entry>, key: string)
    requires Fair(entries)
    ensures Total(entries, key).Some? ==> 0.0 <= Total(entries, key).value.earned <= Total(entries, key).value.possible
  {
    if entries != [] {
      FairTotal(entries[..|entries| - 1], key);
    }
  }

  lemma ScoreIsPercentage(entries: seq<Entry>, criteria: seq<string>, w: Weights)
    requires NonNegative(w) && PresentOnce(entries, criteria, w) && Fair(entries)
    ensures Scored(entries, criteria, w).score.Some? ==> 0.0 <= Scored(entries, criteria, w).score.value <= 100.0
  {
    hide Total;
    forall k | k in criteria && Present(entries, w, k) ensures 0.0 <= Percentage(Total(entries, k).value).GetOr(0.0) <= 100.0 {
      FairTotal(entries, k);
      var t := Total(entries, k).value;
      assert t.earned / t.possible * t.possible == t.earned;
    }
    ScoreBetween(entries, criteria, w, 0.0, 100.0);
  }

  /* What does not matter. */

  /** The score depends on the entries through their totals alone. */
  lemma ScoreByTotals(a: seq<Entry>, b: seq<Entry>, criteria: seq<string>, w: Weights)
    requires SameTotals(a, b)
    ensures Scored(a, criteria, w) == Scored(b, criteria, w)
  {
    assert PresentKeys(a, criteria, w) == PresentKeys(b, criteria, w);
    assert PartsOf(a, criteria, w) == PartsOf(b, criteria, w);
  }

  lemma EntryOrderIsIrrelevant(a: seq<Entry>, b: seq<Entry>, criteria: seq<string>, w: Weights)
    requires multiset(a) == multiset(b)
    ensures Scored(a, criteria, w) == Scored(b, criteria, w)
  {
    PermutingKeepsTotals(a, b);
    ScoreByTotals(a, b, criteria, w);
  }

  lemma SplittingIsIrrelevant(before: seq<Entry>, after: seq<Entry>, key: string, e1: real, p1: real, e2: real, p2: real,
                              criteria: seq<string>, w: Weights)
    ensures Scored(before + [Entry(key, Some(e1 + e2), Some(p1 + p2))] + after, criteria, w)
            == Scored(before + [Entry(key, Some(e1), Some(p1)), Entry(key, Some(e2), Some(p2))] + after, criteria, w)
  {
    SplittingKeepsTotals(before, after, key, e1, p1, e2, p2);
    ScoreByTotals(before + [Entry(key, Some(e1 + e2), Some(p1 + p2))] + after,
                  before + [Entry(key, Some(e1), Some(p1)), Entry(key, Some(e2), Some(p2))] + after, criteria, w);
  }

  function IsRecorded(entries: seq<Entry>): string -> bool { (k: string) => Recorded(entries, k) }

  lemma {:induction false} PointsOfRecorded(entries: seq<Entry>, criteria: seq<string>, f: string -> Part)
    requires forall k | k in criteria && !Recorded(entries, k) :: f(k).points == 0.0
    ensures Points(Mapped(Where(criteria, IsRecorded(entries)), f)) == Points(Mapped(criteria, f))
    decreases |criteria|
  {
    hide Recorded;
    hide Points;
    hide Mapped;
    if criteria != [] {
      var n := |criteria| - 1;
      var init, k := criteria[..n], criteria[n];
      assert k in criteria;
      PointsOfRecorded(entries, init, f);
      PointsOfLast(init, k, f);
      assert criteria == init + [k];
      var kept := Where(init, IsRecorded(entries));
      PointsOfLast(kept, k, f);
      WhereAppend(init, k, IsRecorded(entries));
      if Recorded(entries, k) {
        assert Where(criteria, IsRecorded(entries)) == kept + [k];
      } else {
        assert Where(criteria, IsRecorded(entries)) == kept;
      }
    }
  }

  lemma PointsOfLast(keys: seq<string>, k: string, f: string -> Part)
    ensures Points(Mapped(keys + [k], f)) == Points(Mapped(keys, f)) + f(k).points
  {
    assert Mapped(keys + [k], f)[..|keys|] == Mapped(keys, f);
  }

  /** A criterion nothing was recorded for is left out, never counted as zero. */
  lemma MissingCriteriaDropOut(entries: seq<Entry>, criteria: seq<string>, w: Weights)
    ensures Scored(entries, Where(criteria, IsRecorded(entries)), w).score == Scored(entries, criteria, w).score
  {
    hide Recorded;
    var kept := Where(criteria, IsRecorded(entries));
    forall k ensures k in kept <==> k in criteria && Recorded(entries, k) {
      WhereMember(criteria, IsRecorded(entries), k);
    }
    assert PresentKeys(entries, kept, w) == PresentKeys(entries, criteria, w);
    var f := PartFor(entries, w, WeightSum(entries, criteria, w));
    MissingHasNoPoints(entries, w, WeightSum(entries, criteria, w));
    PointsOfRecorded(entries, criteria, f);
  }

  lemma MissingHasNoPoints(entries: seq<Entry>, w: Weights, weightSum: real)
    ensures forall k | !Recorded(entries, k) :: PartFor(entries, w, weightSum)(k).points == 0.0
  {
    hide Total;
    forall k | !Recorded(entries, k) ensures PartFor(entries, w, weightSum)(k).points == 0.0 {
      assert PartFor(entries, w, weightSum)(k) == PartOf(Total(entries, k), Weight(w)(k), weightSum, k);
    }
  }

  /** Parts equal but for the weight they were given. */
  ghost predicate SameButWeight(a: seq<Part>, b: seq<Part>) {
    |a| == |b| && forall i | 0 <= i < |a| :: a[i] == b[i].(weight := a[i].weight)
  }

  ghost predicate Scales(w: Weights, v: Weights, c: real) { forall k :: Weight(v)(k) == c * Weight(w)(k) }

  lemma PartWeight(total: Option<Slot>, weight: real, sum: real, key: string)
    ensures PartOf(total, weight, sum, key).weight == weight
  {
  }

  lemma ScaledPart(total: Option<Slot>, weight: real, sum: real, weight': real, sum': real, key: string, c: real)
    requires c > 0.0 && weight' == c * weight && sum' == c * sum
    ensures PartOf(total, weight', sum', key) == PartOf(total, weight, sum, key).(weight := weight')
  {
    if sum != 0.0 {
      Cancels(weight, sum, c);
    }
  }

  lemma ScaledPartFor(entries: seq<Entry>, w: Weights, v: Weights, sum: real, sum': real, k: string, c: real)
    requires c > 0.0 && Weight(v)(k) == c * Weight(w)(k) && sum' == c * sum
    ensures var a, b := PartFor(entries, v, sum')(k), PartFor(entries, w, sum)(k);
      a == b.(weight := a.weight) && (a.weight > 0.0 <==> b.weight > 0.0)
  {
    hide Total;
    hide Weight;
    hide PartOf;
    var total, weight, weight' := Total(entries, k), Weight(w)(k), Weight(v)(k);
    ScaledPart(total, weight, sum, weight', sum', k, c);
    PartWeight(total, weight, sum, k);
    PartWeight(total, weight', sum', k);
    SameSign(weight, c);
    assert PartFor(entries, w, sum)(k) == PartOf(total, weight, sum, k);
    assert PartFor(entries, v, sum')(k) == PartOf(total, weight', sum', k);
  }

  lemma SameSign(x: real, c: real)
    requires c > 0.0
    ensures c * x > 0.0 <==> x > 0.0
    ensures c * x == 0.0 <==> x == 0.0
  {
  }

  lemma Cancels(weight: real, sum: real, c: real)
    requires c > 0.0 && sum != 0.0
    ensures c * sum != 0.0 && (c * weight) / (c * sum) == weight / sum
  {
    var q := weight / sum;
    assert q * sum == weight;
    assert q * (c * sum) == c * weight;
  }

  lemma {:induction false} SamePoints(a: seq<Part>, b: seq<Part>)
    requires SameButWeight(a, b)
    ensures Points(a) == Points(b)
  {
    if a != [] {
      SamePoints(a[..|a| - 1], b[..|b| - 1]);
    }
  }

  lemma {:induction false} SameMissed(a: seq<Part>, b: seq<Part>)
    requires SameButWeight(a, b) && forall i | 0 <= i < |a| :: a[i].weight > 0.0 <==> b[i].weight > 0.0
    ensures Mapped(Where(a, IsMissed()), KeyOfPart()) == Mapped(Where(b, IsMissed()), KeyOfPart())
  {
    if a != [] {
      SameMissed(a[..|a| - 1], b[..|b| - 1]);
    }
  }

  /** Only the proportions of the weights matter. */
  lemma ScaleIsIrrelevant(entries: seq<Entry>, criteria: seq<string>, w: Weights, v: Weights, c: real)
    requires c > 0.0 && Scales(w, v, c)
    ensures Scored(entries, criteria, v).score == Scored(entries, criteria, w).score
    ensures Scored(entries, criteria, v).missingKeys == Scored(entries, criteria, w).missingKeys
    ensures SameButWeight(Scored(entries, criteria, v).parts, Scored(entries, criteria, w).parts)
  {
    hide Total;
    hide Weight;
    hide PartFor;
    hide Points;
    hide Where;
    hide SumOver;
    forall k ensures Weight(v)(k) > 0.0 <==> Weight(w)(k) > 0.0 {
      assert Weight(v)(k) == c * Weight(w)(k);
      SameSign(Weight(w)(k), c);
    }
    var keys := PresentKeys(entries, criteria, w);
    assert PresentKeys(entries, criteria, v) == keys;
    SumOverScaled(keys, Weight(w), Weight(v), c);
    var sum := WeightSum(entries, criteria, w);
    var a, b := PartsOf(entries, criteria, v), PartsOf(entries, criteria, w);
    SameSign(sum, c);
    assert WeightSum(entries, criteria, v) == c * sum;
    forall i | 0 <= i < |criteria|
      ensures a[i] == b[i].(weight := a[i].weight) && (a[i].weight > 0.0 <==> b[i].weight > 0.0)
    {
      assert Weight(v)(criteria[i]) == c * Weight(w)(criteria[i]);
      ScaledPartFor(entries, w, v, sum, WeightSum(entries, criteria, v), criteria[i], c);
    }
    SamePoints(a, b);
    SameMissed(a, b);
  }

  /* Normalising. */

  method NormaliseWeights(w: Weights) returns (r: Weights)
    ensures r == Normal(w)
  {
    var total := SumKeys(w.Keys, Weight(w));
    if total == 0.0 {
      r := map k | k in w :: 0.0;
    } else {
      r := map k | k in w :: w[k] * 100.0 / total;
    }
  }

  function NormalShare(x: real, total: real): real { if total == 0.0 then 0.0 else x * 100.0 / total }

  ghost function Normal(w: Weights): Weights {
    var total := SumOver(w.Keys, Weight(w));
    map k | k in w :: NormalShare(w[k], total)
  }

  lemma ShareScaled(x: real, total: real)
    requires total != 0.0
    ensures NormalShare(x, total) == NormalShare(1.0, total) * x
  {
    var c, q := 100.0 / total, x * 100.0 / total;
    assert c * total == 100.0 && q * total == x * 100.0;
    assert (q - c * x) * total == q * total - x * (c * total);
  }

  /** Normalised weights sum to a hundred, or are all zero because they already were. */
  lemma NormalSums(w: Weights)
    requires NonNegative(w)
    ensures NonNegative(Normal(w))
    ensures SumOver(Normal(w).Keys, Weight(Normal(w))) == if forall k | k in w :: w[k] == 0.0 then 0.0 else 100.0
    ensures (forall k | k in w :: w[k] == 0.0) ==> Scales(w, Normal(w), 1.0)
    ensures !(forall k | k in w :: w[k] == 0.0) ==> exists c :: c > 0.0 && Scales(w, Normal(w), c)
  {
    hide SumOver;
    hide NormalShare;
    var total := SumOver(w.Keys, Weight(w));
    SumOverNonNegative(w.Keys, Weight(w));
    assert Normal(w).Keys == w.Keys;
    if total == 0.0 {
      assert forall k | k in w :: Weight(w)(k) == w[k] == 0.0;
      NoShare();
      assert Scales(w, Normal(w), 1.0);
      SumOverScaled(w.Keys, Weight(w), Weight(Normal(w)), 1.0);
    } else {
      var c := NormalShare(1.0, total);
      FactorPositive(total);
      forall k | k in w ensures Normal(w)[k] == c * w[k] {
        ShareScaled(w[k], total);
      }
      assert Scales(w, Normal(w), c);
      assert forall k | k in w :: Weight(w)(k) == w[k];
      SumOverScaled(w.Keys, Weight(w), Weight(Normal(w)), c);
    }
  }

  lemma NoShare()
    ensures forall x :: NormalShare(x, 0.0) == 0.0
  {
  }

  lemma FactorPositive(total: real)
    requires total > 0.0
    ensures NormalShare(1.0, total) > 0.0 && NormalShare(1.0, total) * total == 100.0
  {
  }

  /** Normalising non-negative weights changes no score. */
  lemma NormalisingIsIrrelevant(entries: seq<Entry>, criteria: seq<string>, w: Weights)
    requires NonNegative(w)
    ensures Scored(entries, criteria, Normal(w)).score == Scored(entries, criteria, w).score
    ensures Scored(entries, criteria, Normal(w)).missingKeys == Scored(entries, criteria, w).missingKeys
    ensures SameButWeight(Scored(entries, criteria, Normal(w)).parts, Scored(entries, criteria, w).parts)
  {
    hide Scored;
    hide Normal;
    hide Scales;
    NormalSums(w);
    if forall k | k in w :: w[k] == 0.0 {
      ScaleIsIrrelevant(entries, criteria, w, Normal(w), 1.0);
    } else {
      var c :| c > 0.0 && Scales(w, Normal(w), c);
      ScaleIsIrrelevant(entries, criteria, w, Normal(w), c);
    }
  }
}
