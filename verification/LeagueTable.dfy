/** The league table: a student's weeks in the window, their commitment factors,
    the averaged row and the ranking of all rows. */
module LeagueTable {
  import opened Wrappers
  import opened Sequences
  import opened Commitments
  import opened Scoring
  import Ranking
  import Gaps
  import Ledger
  import LedgerInvariant
  import LedgerLaws
  import LedgerRuns
  import SnapshotCache

  datatype Week = Week(id: string, number: int)

  datatype Student = Student(id: string, displayName: string)

  datatype StoredEntry = StoredEntry(weekId: string, studentId: string, entry: Entry)

  datatype League = League(
    students: seq<Student>, weeks: seq<Week>, criteria: seq<string>, entries: seq<StoredEntry>,
    baselines: seq<BaselineRow>, updates: seq<UpdateRow>, settings: SnapshotCache.Settings)

  datatype WindowMode = SingleWeek | Cumulative | Rolling(n: int)

  datatype WeekRow = WeekRow(
    week: Week, raw: real, resolved: Resolved, weighted: real, factor: real, adjusted: real, capped: bool,
    parts: seq<Part>, missingKeys: seq<string>)

  datatype StudentRow = StudentRow(
    row: Ranking.Row, factor: real, weighted: real, capped: bool, source: Source,
    weeks: seq<WeekRow>, parts: seq<Part>, missingKeys: seq<string>)

  /* Factors. */

  function HoursTerm(h: Hours, typeWeights: Weights): string -> real {
    (k: string) =>
      Weight(typeWeights)(k) * (if k == "work" then h.work else if k == "childcare" then h.childcare
                                else if k == "eldercare" then h.eldercare else 0.0)
  }

  ghost function WeightedHours(h: Hours, typeWeights: Weights): real { SumOver(typeWeights.Keys, HoursTerm(h, typeWeights)) }

  lemma OneTerm(keys: set<string>, f: string -> real, k: string)
    ensures SumOver(keys, f) == SumOver(keys - {k}, f) + (if k in keys then f(k) else 0.0)
  {
    if k in keys {
      SumOverRemove(keys, f, k);
    } else {
      assert keys - {k} == keys;
    }
  }

  /** Only the three kinds of hours count, each at its own weight; a type weight under
      any other name has no effect. */
  lemma WeightedHoursAre(h: Hours, typeWeights: Weights)
    ensures WeightedHours(h, typeWeights)
            == Weight(typeWeights)("work") * h.work + Weight(typeWeights)("childcare") * h.childcare
               + Weight(typeWeights)("eldercare") * h.eldercare
  {
    hide SumOver;
    var f, kinds := HoursTerm(h, typeWeights), {"work", "childcare", "eldercare"};
    var keys := typeWeights.Keys;
    assert forall k | k in keys && k !in kinds :: f(k) == Weight(typeWeights)(k) * 0.0;
    SumOverSupport(keys, f, kinds);
    OneTerm(keys * kinds, f, "work");
    OneTerm(keys * kinds - {"work"}, f, "childcare");
    OneTerm(keys * kinds - {"work"} - {"childcare"}, f, "eldercare");
    assert keys * kinds - {"work"} - {"childcare"} - {"eldercare"} == {};
    NoKeys(f);
  }

  lemma NoKeys(f: string -> real)
    ensures SumOver({}, f) == 0.0
  {
  }

  function CommitmentFactor(h: real, rate: real, cap: real): real {
    if 1.0 + rate * h <= cap then 1.0 + rate * h else cap
  }

  function Adjusted(raw: real, factor: real): real { if raw * factor < 100.0 then raw * factor else 100.0 }

  const TOLERANCE := 0.000000001

  predicate IsCapped(raw: real, factor: real) { raw * factor > 100.0 + TOLERANCE }

  function Sum(xs: seq<real>): real { if xs == [] then 0.0 else Sum(xs[..|xs| - 1]) + xs[|xs| - 1] }

  function Mean(xs: seq<real>): Option<real> { if xs == [] then None else Some(Sum(xs) / |xs| as real) }

  /* One student's weeks. */

  function InWeek(week: Week, student: Student, keys: seq<string>): StoredEntry -> bool {
    (e: StoredEntry) => e.weekId == week.id && e.studentId == student.id && e.entry.key in keys
  }

  function EntryOf(): StoredEntry -> Entry { (e: StoredEntry) => e.entry }

  function EntriesFor(l: League, s: Student, week: Week, keys: seq<string>): seq<Entry> {
    Mapped(Where(l.entries, InWeek(week, s, keys)), EntryOf())
  }

  function HoursOf(l: League, s: Student, week: Week): Resolved {
    ResolveHours(LedgerLaws.ActiveBaseline(l.baselines, s.id), Where(l.updates, LedgerLaws.OfStudent(s.id)), week.number)
  }

  function MakeWeek(week: Week, scored: Score, resolved: Resolved, weighted: real, settings: SnapshotCache.Settings): WeekRow
    requires scored.score.Some?
  {
    var factor := CommitmentFactor(weighted, settings.rate, settings.cap);
    var raw := scored.score.value;
    WeekRow(week, raw, resolved, weighted, factor, Adjusted(raw, factor), IsCapped(raw, factor),
            scored.parts, scored.missingKeys)
  }

  ghost function WeekRowOf(l: League, s: Student, week: Week, criteria: seq<string>, keys: seq<string>, w: Weights): Option<WeekRow> {
    var entries := EntriesFor(l, s, week, keys);
    var scored := Scored(entries, criteria, w);
    var resolved := HoursOf(l, s, week);
    if entries == [] || scored.score.None? then None
    else Some(MakeWeek(week, scored, resolved, WeightedHours(resolved.hours, l.settings.typeWeights), l.settings))
  }

  /** The weeks of a list that have a score, in order. */
  ghost function WeekRows(l: League, s: Student, weeks: seq<Week>, criteria: seq<string>, keys: seq<string>, w: Weights): seq<WeekRow> {
    if weeks == [] then []
    else
      var n := |weeks| - 1;
      var last := WeekRowOf(l, s, weeks[n], criteria, keys, w);
      WeekRows(l, s, weeks[..n], criteria, keys, w) + (if last.Some? then [last.value] else [])
  }

  method StudentWeeks(l: League, s: Student, weeks: seq<Week>, criteria: seq<string>, keys: seq<string>, w: Weights)
    returns (out: seq<WeekRow>)
    ensures out == WeekRows(l, s, weeks, criteria, keys, w)
  {
    hide Scored;
    hide SumOver;
    hide MakeWeek;
    hide EntriesFor;
    var baseline := LedgerLaws.ActiveBaseline(l.baselines, s.id);
    var updates := Where(l.updates, LedgerLaws.OfStudent(s.id));
    out := [];
    for i := 0 to |weeks|
      invariant out == WeekRows(l, s, weeks[..i], criteria, keys, w)
    {
      assert weeks[..i + 1][..i] == weeks[..i];
      var entries := EntriesFor(l, s, weeks[i], keys);
      if entries != [] {
        var scored := ScoreStudent(entries, criteria, w);
        if scored.score.Some? {
          var resolved := ResolveHours(baseline, updates, weeks[i].number);
          var h := SumKeys(l.settings.typeWeights.Keys, HoursTerm(resolved.hours, l.settings.typeWeights));
          out := out + [MakeWeek(weeks[i], scored, resolved, h, l.settings)];
        }
      }
    }
    assert weeks[..|weeks|] == weeks;
  }

  /** A window never changes a week's own row: the rows of consecutive stretches of
      weeks are the rows of the whole. */
  lemma {:induction false} WindowsConcatenate(l: League, s: Student, a: seq<Week>, b: seq<Week>, criteria: seq<string>, keys: seq<string>, w: Weights)
    ensures WeekRows(l, s, a + b, criteria, keys, w) == WeekRows(l, s, a, criteria, keys, w) + WeekRows(l, s, b, criteria, keys, w)
    decreases |b|
  {
    hide WeekRowOf;
    if b == [] {
      assert a + b == a;
    } else {
      assert (a + b)[..|a + b| - 1] == a + b[..|b| - 1];
      WindowsConcatenate(l, s, a, b[..|b| - 1], criteria, keys, w);
    }
  }

  /* Windows. */

  function HasId(id: string): Week -> bool { (w: Week) => w.id == id }

  function WindowWeeks(weeks: seq<Week>, weekId: string, mode: WindowMode): seq<Week> {
    match FirstIndex(weeks, HasId(weekId))
    case None => []
    case Some(i) =>
      match mode
      case SingleWeek => [weeks[i]]
      case Cumulative => weeks[..i + 1]
      case Rolling(n) =>
        var from := if i + 1 - n > 0 then i + 1 - n else 0;
        if from > i then [] else weeks[from..i + 1]
  }

  /** A rolling window as long as the term so far is the cumulative one, and one of
      a single week is that week. */
  lemma RollingMeetsTheOthers(weeks: seq<Week>, weekId: string, n: int)
    ensures n >= |weeks| ==> WindowWeeks(weeks, weekId, Rolling(n)) == WindowWeeks(weeks, weekId, Cumulative)
    ensures WindowWeeks(weeks, weekId, Rolling(1)) == WindowWeeks(weeks, weekId, SingleWeek)
    ensures n <= 0 ==> WindowWeeks(weeks, weekId, Rolling(n)) == []
  {
  }

  /* One student's row. */

  function Raws(rows: seq<WeekRow>): seq<real> { Mapped(rows, (r: WeekRow) => r.raw) }

  function Adjusteds(rows: seq<WeekRow>): seq<real> { Mapped(rows, (r: WeekRow) => r.adjusted) }

  function Factors(rows: seq<WeekRow>): seq<real> { Mapped(rows, (r: WeekRow) => r.factor) }

  function WeightedOf(rows: seq<WeekRow>): seq<real> { Mapped(rows, (r: WeekRow) => r.weighted) }

  function NormalisedByKey(parts: seq<Part>): map<string, real> {
    if parts == [] then map[]
    else
      var p := parts[|parts| - 1];
      NormalisedByKey(parts[..|parts| - 1])[p.key := p.normalised.GetOr(-1.0)]
  }

  function MakeRow(s: Student, rows: seq<WeekRow>): StudentRow
    requires rows != []
  {
    var last := rows[|rows| - 1];
    StudentRow(
      Ranking.Row(s.id, s.displayName, Mean(Adjusteds(rows)), Mean(Raws(rows)), NormalisedByKey(last.parts)),
      Mean(Factors(rows)).value, Mean(WeightedOf(rows)).value, exists r :: r in rows && r.capped,
      last.resolved.source, rows, last.parts, last.missingKeys)
  }

  function IsKey(keys: seq<string>): string -> bool { (k: string) => k in keys }

  ghost function RowsOf(l: League, students: seq<Student>, weeks: seq<Week>, criteria: seq<string>, keys: seq<string>, w: Weights): seq<StudentRow> {
    if students == [] then []
    else
      var n := |students| - 1;
      var rows := WeekRows(l, students[n], weeks, criteria, keys, w);
      RowsOf(l, students[..n], weeks, criteria, keys, w) + (if rows == [] then [] else [MakeRow(students[n], rows)])
  }

  ghost function TableRows(l: League, weekId: string, mode: WindowMode, keys: seq<string>, w: Weights): seq<StudentRow> {
    RowsOf(l, l.students, WindowWeeks(l.weeks, weekId, mode), Where(l.criteria, IsKey(keys)), keys, w)
  }

  function RankedRow(): StudentRow -> Ranking.Row { (r: StudentRow) => r.row }

  method BuildRows(l: League, weekId: string, mode: WindowMode, keys: seq<string>, w: Weights, names: Ranking.NameOrder)
    returns (rows: seq<StudentRow>, table: seq<Ranking.Ranked>, up: seq<Option<int>>, down: seq<Option<int>>)
    requires Ranking.Preorder(names)
    ensures rows == TableRows(l, weekId, mode, keys, w)
    ensures TableExplained(l, rows, l.students, WindowWeeks(l.weeks, weekId, mode), Where(l.criteria, (k: string) => k in keys), keys, w)
    ensures Gaps.IsRanking(Mapped(rows, RankedRow()), table, l.settings.tieBreakers, names)
    ensures Gaps.GapTable(table, up, down)
  {
    hide WeekRows;
    hide MakeRow;
    hide WindowWeeks;
    hide TableExplained;
    hide Gaps.GapTable;
    hide Gaps.IsRanking;
    var criteria, weeks := Where(l.criteria, IsKey(keys)), WindowWeeks(l.weeks, weekId, mode);
    rows := [];
    for i := 0 to |l.students|
      invariant rows == RowsOf(l, l.students[..i], weeks, criteria, keys, w)
    {
      assert l.students[..i + 1][..i] == l.students[..i];
      var weekRows := StudentWeeks(l, l.students[i], weeks, criteria, keys, w);
      if weekRows != [] {
        rows := rows + [MakeRow(l.students[i], weekRows)];
      }
    }
    assert l.students[..|l.students|] == l.students;
    RowsHaveScores(l, l.students, weeks, criteria, keys, w);
    TableIsExplained(l, weekId, mode, keys, w);
    table, up, down := Gaps.RankTable(Mapped(rows, RankedRow()), l.settings.tieBreakers, names);
  }

  lemma {:induction false} RowsHaveScores(l: League, students: seq<Student>, weeks: seq<Week>, criteria: seq<string>, keys: seq<string>, w: Weights)
    ensures forall i | 0 <= i < |RowsOf(l, students, weeks, criteria, keys, w)| ::
      RowsOf(l, students, weeks, criteria, keys, w)[i].row.score.Some?
  {
    hide WeekRows;
    if students != [] {
      RowsHaveScores(l, students[..|students| - 1], weeks, criteria, keys, w);
    }
  }

  /* Bounds. */

  lemma {:induction false} SumBetween(xs: seq<real>, ys: seq<real>, a: real, b: real)
    requires |xs| == |ys| && forall i | 0 <= i < |xs| :: ys[i] <= a * xs[i] + b
    ensures Sum(ys) <= a * Sum(xs) + b * |xs| as real
  {
    if xs != [] {
      var n := |xs| - 1;
      SumBetween(xs[..n], ys[..n], a, b);
      Distributes(a, Sum(xs[..n]), xs[n]);
      Distributes(b, n as real, 1.0);
    }
  }

  /** Bounding every value by a line in another bounds the means alike. */
  lemma MeanBelow(xs: seq<real>, ys: seq<real>, a: real, b: real)
    requires |xs| == |ys| > 0 && forall i | 0 <= i < |xs| :: ys[i] <= a * xs[i] + b
    ensures Mean(xs).Some? && Mean(ys).Some? && Mean(ys).value <= a * Mean(xs).value + b
  {
    hide Sum;
    SumBetween(xs, ys, a, b);
    Divided(Sum(xs), Sum(ys), |xs| as real, a, b);
  }

  lemma Divided(x: real, y: real, n: real, a: real, b: real)
    requires n > 0.0 && y <= a * x + b * n
    ensures y / n <= a * (x / n) + b
  {
    var p, q := x / n, y / n;
    assert p * n == x && q * n == y;
    assert (a * p + b) * n == a * (p * n) + b * n;
    if q > a * p + b {
      assert q * n > (a * p + b) * n;
    }
  }

  ghost predicate WeekWithin(r: WeekRow, cap: real) {
    && 0.0 <= r.raw <= r.adjusted <= 100.0 && r.adjusted <= cap * r.raw
    && 1.0 <= r.factor <= cap
  }

  /** What a commitment factor may do to a row. */
  ghost predicate RowWithin(r: StudentRow, cap: real) {
    && r.row.score.Some? && r.row.raw.Some?
    && 0.0 <= r.row.raw.value <= r.row.score.value <= 100.0 && r.row.score.value <= cap * r.row.raw.value
    && 1.0 <= r.factor <= cap
  }

  ghost predicate WeeksWithin(rows: seq<WeekRow>, cap: real) { forall i | 0 <= i < |rows| :: WeekWithin(rows[i], cap) }

  ghost predicate RowsWithin(rows: seq<StudentRow>, cap: real) { forall i | 0 <= i < |rows| :: RowWithin(rows[i], cap) }

  lemma FactorWithin(h: real, rate: real, cap: real)
    requires h >= 0.0 && rate >= 0.0 && cap >= 1.0
    ensures 1.0 <= CommitmentFactor(h, rate, cap) <= cap
  {
  }

  lemma ProductNonNegative(a: real, b: real)
    requires a >= 0.0 && b >= 0.0
    ensures a * b >= 0.0
  {
  }

  lemma AdjustedWithin(raw: real, factor: real, cap: real)
    requires 0.0 <= raw <= 100.0 && 1.0 <= factor <= cap
    ensures raw <= Adjusted(raw, factor) <= 100.0 && Adjusted(raw, factor) <= cap * raw
  {
    ProductNonNegative(factor - 1.0, raw);
    ProductNonNegative(cap - factor, raw);
    assert raw * factor == (factor - 1.0) * raw + raw;
    assert cap * raw == (cap - factor) * raw + raw * factor;
  }

  lemma WeightedNonNegative(h: Hours, typeWeights: Weights)
    requires NonNegative(typeWeights) && HoursNonNegative(h)
    ensures WeightedHours(h, typeWeights) >= 0.0
  {
    forall k | k in typeWeights.Keys ensures HoursTerm(h, typeWeights)(k) >= 0.0 {
      assert Weight(typeWeights)(k) >= 0.0;
    }
    SumOverNonNegative(typeWeights.Keys, HoursTerm(h, typeWeights));
  }

  ghost predicate HoursNonNegative(h: Hours) { h.work >= 0.0 && h.childcare >= 0.0 && h.eldercare >= 0.0 }

  /** Settings that can only help, hours that are hours and entries within their maximum. */
  ghost predicate Sane(l: League) {
    && NonNegative(l.settings.typeWeights) && l.settings.rate >= 0.0 && l.settings.cap >= 1.0
    && (forall i | 0 <= i < |l.baselines| :: HoursNonNegative(l.baselines[i].hours))
    && (forall i | 0 <= i < |l.updates| :: HoursNonNegative(l.updates[i].hours))
    && (forall i | 0 <= i < |l.entries| :: Fair([l.entries[i].entry]))
  }

  ghost predicate Distinct(criteria: seq<string>) { forall i, j | 0 <= i < j < |criteria| :: criteria[i] != criteria[j] }

  lemma {:induction false} WhereDistinct(criteria: seq<string>, p: string -> bool)
    requires Distinct(criteria)
    ensures Distinct(Where(criteria, p))
    decreases |criteria|
  {
    if criteria != [] {
      var n := |criteria| - 1;
      WhereDistinct(criteria[..n], p);
      var kept := Where(criteria[..n], p);
      forall i | 0 <= i < |kept| ensures kept[i] != criteria[n] {
        WhereMember(criteria[..n], p, kept[i]);
        assert kept[i] in criteria[..n];
      }
    }
  }

  lemma HoursAreSane(l: League, s: Student, week: Week)
    requires Sane(l)
    ensures HoursNonNegative(HoursOf(l, s, week).hours)
  {
    hide Where;
    hide FirstIndex;
    var b := LedgerLaws.ActiveBaseline(l.baselines, s.id);
    if b.Some? {
      WhereMember(l.baselines, LedgerLaws.ApprovedOfStudent(s.id), b.value);
    }
    var us := Where(l.updates, LedgerLaws.OfStudent(s.id));
    var i := FirstIndex(us, AppliesTo(week.number));
    if i.Some? {
      WhereMember(l.updates, LedgerLaws.OfStudent(s.id), us[i.value]);
    }
  }

  lemma EntriesAreFair(l: League, s: Student, week: Week, keys: seq<string>)
    requires Sane(l)
    ensures Fair(EntriesFor(l, s, week, keys))
  {
    hide Where;
    var picked := Where(l.entries, InWeek(week, s, keys));
    forall i | 0 <= i < |picked| ensures Fair([picked[i].entry]) {
      WhereMember(l.entries, InWeek(week, s, keys), picked[i]);
    }
    forall i | 0 <= i < |picked| ensures Fair([EntriesFor(l, s, week, keys)[i]]) {
    }
    FairEach(EntriesFor(l, s, week, keys));
  }

  lemma FairEach(entries: seq<Entry>)
    requires forall i | 0 <= i < |entries| :: Fair([entries[i]])
    ensures Fair(entries)
  {
    forall i | 0 <= i < |entries| && entries[i].earned.Some? && entries[i].possible.Some?
      ensures 0.0 <= entries[i].earned.value <= entries[i].possible.value
    {
      assert [entries[i]][0] == entries[i];
    }
  }

  lemma WeekIsWithin(l: League, s: Student, week: Week, criteria: seq<string>, keys: seq<string>, w: Weights)
    requires Sane(l) && Distinct(criteria) && NonNegative(w)
    ensures WeekRowOf(l, s, week, criteria, keys, w).Some? ==>
      WeekWithin(WeekRowOf(l, s, week, criteria, keys, w).value, l.settings.cap)
  {
    hide Scored;
    hide SumOver;
    hide EntriesFor;
    hide HoursOf;
    hide HoursTerm;
    hide CommitmentFactor;
    hide Adjusted;
    var row := WeekRowOf(l, s, week, criteria, keys, w);
    if row.Some? {
      EntriesAreFair(l, s, week, keys);
      assert PresentOnce(EntriesFor(l, s, week, keys), criteria, w);
      ScoreIsPercentage(EntriesFor(l, s, week, keys), criteria, w);
      HoursAreSane(l, s, week);
      WeightedNonNegative(HoursOf(l, s, week).hours, l.settings.typeWeights);
      FactorWithin(row.value.weighted, l.settings.rate, l.settings.cap);
      AdjustedWithin(row.value.raw, row.value.factor, l.settings.cap);
    }
  }

  lemma {:induction false} WeeksAreWithin(l: League, s: Student, weeks: seq<Week>, criteria: seq<string>, keys: seq<string>, w: Weights)
    requires Sane(l) && Distinct(criteria) && NonNegative(w)
    ensures WeeksWithin(WeekRows(l, s, weeks, criteria, keys, w), l.settings.cap)
    decreases |weeks|
  {
    hide WeekRowOf;
    hide WeekWithin;
    hide Sane;
    if weeks != [] {
      var n := |weeks| - 1;
      WeeksAreWithin(l, s, weeks[..n], criteria, keys, w);
      WeekIsWithin(l, s, weeks[n], criteria, keys, w);
    }
  }

  lemma RowIsWithin(s: Student, rows: seq<WeekRow>, cap: real)
    requires rows != [] && WeeksWithin(rows, cap)
    ensures RowWithin(MakeRow(s, rows), cap)
  {
    hide Mean;
    var raws, adjusteds, factors := Raws(rows), Adjusteds(rows), Factors(rows);
    var zeros := seq(|rows|, i => 0.0);
    assert forall i | 0 <= i < |rows| :: raws[i] == rows[i].raw && adjusteds[i] == rows[i].adjusted && factors[i] == rows[i].factor;
    MeanBelow(raws, zeros, 1.0, 0.0);
    MeanBelow(adjusteds, raws, 1.0, 0.0);
    MeanBelow(raws, adjusteds, cap, 0.0);
    MeanBelow(zeros, adjusteds, 0.0, 100.0);
    MeanBelow(zeros, factors, 0.0, cap);
    MeanBelow(factors, zeros, 1.0, -1.0);
    ZeroMean(zeros);
  }

  lemma ZeroMean(zeros: seq<real>)
    requires zeros != [] && forall i | 0 <= i < |zeros| :: zeros[i] == 0.0
    ensures Mean(zeros) == Some(0.0)
  {
    ZeroSum(zeros);
  }

  lemma {:induction false} ZeroSum(zeros: seq<real>)
    requires forall i | 0 <= i < |zeros| :: zeros[i] == 0.0
    ensures Sum(zeros) == 0.0
  {
    if zeros != [] {
      ZeroSum(zeros[..|zeros| - 1]);
    }
  }

  lemma {:induction false} RowsAreWithin(l: League, students: seq<Student>, weeks: seq<Week>, criteria: seq<string>, keys: seq<string>, w: Weights)
    requires Sane(l) && Distinct(criteria) && NonNegative(w)
    ensures RowsWithin(RowsOf(l, students, weeks, criteria, keys, w), l.settings.cap)
    decreases |students|
  {
    hide WeekRows;
    hide WeekWithin;
    hide RowWithin;
    hide MakeRow;
    hide Sane;
    if students != [] {
      var n := |students| - 1;
      RowsAreWithin(l, students[..n], weeks, criteria, keys, w);
      WeeksAreWithin(l, students[n], weeks, criteria, keys, w);
      var rows := WeekRows(l, students[n], weeks, criteria, keys, w);
      if rows != [] {
        RowIsWithin(students[n], rows, l.settings.cap);
      }
    }
  }

  /** In every window mode commitments can only help a student, never past a hundred
      and never by more than the cap. */
  lemma WindowBounds(l: League, weekId: string, mode: WindowMode, keys: seq<string>, w: Weights)
    requires Sane(l) && Distinct(l.criteria) && NonNegative(w)
    ensures RowsWithin(TableRows(l, weekId, mode, keys, w), l.settings.cap)
  {
    hide RowsOf;
    hide RowsWithin;
    hide Sane;
    hide WindowWeeks;
    WhereDistinct(l.criteria, IsKey(keys));
    RowsAreWithin(l, l.students, WindowWeeks(l.weeks, weekId, mode), Where(l.criteria, IsKey(keys)), keys, w);
  }

  /* What a row says, written out. */

  /** Sums of a column over weeks. */
  function Total(weeks: seq<WeekRow>, column: WeekRow -> real): real {
    if weeks == [] then 0.0 else Total(weeks[..|weeks| - 1], column) + column(weeks[|weeks| - 1])
  }

  /** A factor that grows with the weighted hours at the given rate up to the cap, and a
      score that is the raw score times the factor, up to a hundred. */
  ghost predicate NumbersExplained(raw: real, weighted: real, factor: real, adjusted: real, capped: bool, rate: real, cap: real) {
    && (1.0 + rate * weighted <= cap ==> factor == 1.0 + rate * weighted)
    && (1.0 + rate * weighted > cap ==> factor == cap)
    && (raw * factor <= 100.0 ==> adjusted == raw * factor)
    && (raw * factor > 100.0 ==> adjusted == 100.0)
    && (capped <==> raw * factor > 100.000000001)
  }

  lemma NumbersAre(raw: real, weighted: real, rate: real, cap: real)
    ensures var factor := CommitmentFactor(weighted, rate, cap);
      NumbersExplained(raw, weighted, factor, Adjusted(raw, factor), IsCapped(raw, factor), rate, cap)
  {
    FactorIs(weighted, rate, cap);
    hide CommitmentFactor;
    var factor := CommitmentFactor(weighted, rate, cap);
    AdjustedIs(raw, factor);
    CappedIs(raw, factor);
  }

  /** One week's row: the raw score of the week's entries, the hours in effect weighted by
      type, and the numbers made of them. */
  ghost predicate WeekExplained(l: League, s: Student, r: WeekRow, criteria: seq<string>, keys: seq<string>, w: Weights) {
    var entries, g := EntriesFor(l, s, r.week, keys), l.settings;
    var tw := g.typeWeights;
    && entries != [] && Scored(entries, criteria, w).score == Some(r.raw)
    && r.parts == Scored(entries, criteria, w).parts && r.missingKeys == Scored(entries, criteria, w).missingKeys
    && r.resolved == HoursOf(l, s, r.week)
    && r.weighted == (if "work" in tw then tw["work"] else 0.0) * r.resolved.hours.work
                     + (if "childcare" in tw then tw["childcare"] else 0.0) * r.resolved.hours.childcare
                     + (if "eldercare" in tw then tw["eldercare"] else 0.0) * r.resolved.hours.eldercare
    && NumbersExplained(r.raw, r.weighted, r.factor, r.adjusted, r.capped, g.rate, g.cap)
  }

  /** A student's row: weeks of the window, averaged; the rest is the last week's. */
  ghost predicate RowExplained(l: League, s: Student, r: StudentRow, weeks: seq<Week>, criteria: seq<string>, keys: seq<string>, w: Weights) {
    && r.weeks != [] && r.row.studentId == s.id && r.row.displayName == s.displayName
    && (forall i | 0 <= i < |r.weeks| :: WeekExplained(l, s, r.weeks[i], criteria, keys, w))
    && WeeksOf(r.weeks) == Where(weeks, IsScored(l, s, criteria, keys, w))
    && r.row.score.Some? && r.row.score.value * |r.weeks| as real == Total(r.weeks, (k: WeekRow) => k.adjusted)
    && r.row.raw.Some? && r.row.raw.value * |r.weeks| as real == Total(r.weeks, (k: WeekRow) => k.raw)
    && r.factor * |r.weeks| as real == Total(r.weeks, (k: WeekRow) => k.factor)
    && r.weighted * |r.weeks| as real == Total(r.weeks, (k: WeekRow) => k.weighted)
    && (r.capped <==> exists i :: 0 <= i < |r.weeks| && r.weeks[i].capped)
    && var last := r.weeks[|r.weeks| - 1];
       && r.source == last.resolved.source && r.parts == last.parts && r.missingKeys == last.missingKeys
       && (forall k :: k in r.row.normalised <==> exists i :: 0 <= i < |last.parts| && last.parts[i].key == k)
       && (forall i | 0 <= i < |last.parts| && LastOfKey(last.parts, i) ::
             r.row.normalised[last.parts[i].key] == if last.parts[i].normalised.Some? then last.parts[i].normalised.value else -1.0)
  }

  ghost function IsScored(l: League, s: Student, criteria: seq<string>, keys: seq<string>, w: Weights): Week -> bool {
    (k: Week) => EntriesFor(l, s, k, keys) != [] && Scored(EntriesFor(l, s, k, keys), criteria, w).score.Some?
  }

  function WeeksOf(rows: seq<WeekRow>): seq<Week> { Mapped(rows, (r: WeekRow) => r.week) }

  lemma WeekIsExplained(l: League, s: Student, week: Week, criteria: seq<string>, keys: seq<string>, w: Weights)
    ensures var r := WeekRowOf(l, s, week, criteria, keys, w);
      && (r.Some? <==> IsScored(l, s, criteria, keys, w)(week))
      && (r.Some? ==> r.value.week == week && WeekExplained(l, s, r.value, criteria, keys, w))
  {
    hide Scored;
    hide SumOver;
    hide EntriesFor;
    hide HoursOf;
    hide WeightedHours;
    hide HoursTerm;
    hide CommitmentFactor;
    hide Adjusted;
    hide IsCapped;
    hide NumbersExplained;
    var h, tw := HoursOf(l, s, week).hours, l.settings.typeWeights;
    WeightedHoursAre(h, tw);
    assert WeightedHours(h, tw) == (if "work" in tw then tw["work"] else 0.0) * h.work
                                   + (if "childcare" in tw then tw["childcare"] else 0.0) * h.childcare
                                   + (if "eldercare" in tw then tw["eldercare"] else 0.0) * h.eldercare;
    var o := WeekRowOf(l, s, week, criteria, keys, w);
    if o.Some? {
      var r := o.value;
      NumbersAre(r.raw, r.weighted, l.settings.rate, l.settings.cap);
    }
  }

  lemma FactorIs(h: real, rate: real, cap: real)
    ensures 1.0 + rate * h <= cap ==> CommitmentFactor(h, rate, cap) == 1.0 + rate * h
    ensures 1.0 + rate * h > cap ==> CommitmentFactor(h, rate, cap) == cap
  {
  }

  lemma CappedIs(raw: real, factor: real)
    ensures IsCapped(raw, factor) <==> raw * factor > 100.000000001
  {
    assert 100.0 + TOLERANCE == 100.000000001;
  }

  lemma AdjustedIs(raw: real, factor: real)
    ensures raw * factor <= 100.0 ==> Adjusted(raw, factor) == raw * factor
    ensures raw * factor > 100.0 ==> Adjusted(raw, factor) == 100.0
  {
  }

  lemma {:induction false} WeeksAreExplained(l: League, s: Student, weeks: seq<Week>, criteria: seq<string>, keys: seq<string>, w: Weights)
    ensures var rows := WeekRows(l, s, weeks, criteria, keys, w);
      && WeeksOf(rows) == Where(weeks, IsScored(l, s, criteria, keys, w))
      && forall i | 0 <= i < |rows| :: WeekExplained(l, s, rows[i], criteria, keys, w)
    decreases |weeks|
  {
    hide WeekRowOf;
    hide WeekExplained;
    hide IsScored;
    if weeks != [] {
      var n := |weeks| - 1;
      WeeksAreExplained(l, s, weeks[..n], criteria, keys, w);
      WeekIsExplained(l, s, weeks[n], criteria, keys, w);
    }
  }

  lemma {:induction false} SumIsTotal(weeks: seq<WeekRow>, column: WeekRow -> real)
    ensures Sum(Mapped(weeks, column)) == Total(weeks, column)
    decreases |weeks|
  {
    if weeks != [] {
      assert Mapped(weeks, column)[..|weeks| - 1] == Mapped(weeks[..|weeks| - 1], column);
      SumIsTotal(weeks[..|weeks| - 1], column);
    }
  }

  /** A mean times the count is the sum. */
  lemma MeanTimesCount(weeks: seq<WeekRow>, column: WeekRow -> real)
    requires weeks != []
    ensures var m := Mean(Mapped(weeks, column)); m.Some? && m.value * |weeks| as real == Total(weeks, column)
  {
    hide Sum;
    hide Mapped;
    hide Total;
    hide Mean;
    SumIsTotal(weeks, column);
    MeanTimes(Mapped(weeks, column));
  }

  lemma MeanTimes(xs: seq<real>)
    requires xs != []
    ensures Mean(xs).Some? && Mean(xs).value * |xs| as real == Sum(xs)
  {
    hide Sum;
    TimesCount(Sum(xs), |xs| as real);
  }

  lemma TimesCount(t: real, n: real)
    requires n > 0.0
    ensures t / n * n == t
  {
  }

  lemma {:induction false} NormalisedHas(parts: seq<Part>, k: string)
    ensures k in NormalisedByKey(parts) <==> exists i :: 0 <= i < |parts| && parts[i].key == k
    decreases |parts|
  {
    if parts != [] {
      var n := |parts| - 1;
      NormalisedHas(parts[..n], k);
      if i :| 0 <= i < n && parts[..n][i].key == k {
        assert parts[i].key == k;
      }
      if i :| 0 <= i < |parts| && parts[i].key == k {
        assert i < n ==> parts[..n][i].key == k;
      }
    }
  }

  /** The last part with its key. */
  ghost predicate LastOfKey(parts: seq<Part>, i: nat)
    requires i < |parts|
  {
    forall j | i < j < |parts| :: parts[j].key != parts[i].key
  }

  lemma {:induction false} NormalisedIs(parts: seq<Part>, i: nat)
    requires i < |parts| && LastOfKey(parts, i)
    ensures parts[i].key in NormalisedByKey(parts)
    ensures NormalisedByKey(parts)[parts[i].key] == if parts[i].normalised.Some? then parts[i].normalised.value else -1.0
    decreases |parts|
  {
    var n := |parts| - 1;
    if i < n {
      assert parts[n].key != parts[i].key;
      assert LastOfKey(parts[..n], i);
      NormalisedIs(parts[..n], i);
    }
  }

  lemma RowIsExplained(l: League, s: Student, weeks: seq<Week>, criteria: seq<string>, keys: seq<string>, w: Weights)
    requires WeekRows(l, s, weeks, criteria, keys, w) != []
    ensures RowExplained(l, s, MakeRow(s, WeekRows(l, s, weeks, criteria, keys, w)), weeks, criteria, keys, w)
  {
    hide WeekRows;
    hide WeekExplained;
    hide Mean;
    hide NormalisedByKey;
    hide IsScored;
    hide Total;
    var rows := WeekRows(l, s, weeks, criteria, keys, w);
    WeeksAreExplained(l, s, weeks, criteria, keys, w);
    MeanTimesCount(rows, (r: WeekRow) => r.adjusted);
    MeanTimesCount(rows, (r: WeekRow) => r.raw);
    MeanTimesCount(rows, (r: WeekRow) => r.factor);
    MeanTimesCount(rows, (r: WeekRow) => r.weighted);
    var parts := rows[|rows| - 1].parts;
    forall k ensures k in NormalisedByKey(parts) <==> exists i :: 0 <= i < |parts| && parts[i].key == k {
      NormalisedHas(parts, k);
    }
    forall i | 0 <= i < |parts| && LastOfKey(parts, i)
      ensures NormalisedByKey(parts)[parts[i].key] == if parts[i].normalised.Some? then parts[i].normalised.value else -1.0
    {
      NormalisedIs(parts, i);
    }
  }

  /** The students who have a row are those with a scored week in the window, in order. */
  ghost function HasScoredWeek(l: League, weeks: seq<Week>, criteria: seq<string>, keys: seq<string>, w: Weights): Student -> bool {
    (s: Student) => exists i :: 0 <= i < |weeks| && IsScored(l, s, criteria, keys, w)(weeks[i])
  }

  lemma RowIffScored(l: League, s: Student, weeks: seq<Week>, criteria: seq<string>, keys: seq<string>, w: Weights)
    ensures WeekRows(l, s, weeks, criteria, keys, w) != [] <==> HasScoredWeek(l, weeks, criteria, keys, w)(s)
  {
    hide WeekRows;
    hide WeekExplained;
    hide IsScored;
    WeeksAreExplained(l, s, weeks, criteria, keys, w);
    WhereLast(weeks, IsScored(l, s, criteria, keys, w));
  }

  /** The rows of a list of students: one for each who has a scored week, explained. */
  ghost predicate TableExplained(l: League, rows: seq<StudentRow>, students: seq<Student>, weeks: seq<Week>, criteria: seq<string>, keys: seq<string>, w: Weights) {
    var shown := Where(students, HasScoredWeek(l, weeks, criteria, keys, w));
    |rows| == |shown| && forall i | 0 <= i < |rows| :: RowExplained(l, shown[i], rows[i], weeks, criteria, keys, w)
  }

  lemma {:induction false} RowsAreExplained(l: League, students: seq<Student>, weeks: seq<Week>, criteria: seq<string>, keys: seq<string>, w: Weights)
    ensures TableExplained(l, RowsOf(l, students, weeks, criteria, keys, w), students, weeks, criteria, keys, w)
    decreases |students|
  {
    hide WeekRows;
    hide MakeRow;
    hide RowExplained;
    hide HasScoredWeek;
    if students != [] {
      var n := |students| - 1;
      RowsAreExplained(l, students[..n], weeks, criteria, keys, w);
      RowIffScored(l, students[n], weeks, criteria, keys, w);
      if WeekRows(l, students[n], weeks, criteria, keys, w) != [] {
        RowIsExplained(l, students[n], weeks, criteria, keys, w);
      }
    }
  }

  /** Every row of the table, field by field, and which students have one. */
  lemma TableIsExplained(l: League, weekId: string, mode: WindowMode, keys: seq<string>, w: Weights)
    ensures TableExplained(l, TableRows(l, weekId, mode, keys, w), l.students, WindowWeeks(l.weeks, weekId, mode),
                           Where(l.criteria, (k: string) => k in keys), keys, w)
  {
    hide RowsOf;
    hide TableExplained;
    hide WindowWeeks;
    hide Where;
    WhereAlike(l.criteria, IsKey(keys), (k: string) => k in keys);
    RowsAreExplained(l, l.students, WindowWeeks(l.weeks, weekId, mode), Where(l.criteria, IsKey(keys)), keys, w);
  }

  /** Eighty raw points and ten work hours at one percent an hour are 88 points, whatever
      else the week shows. */
  lemma TenHoursMakeEightyEight(l: League, s: Student, r: WeekRow, criteria: seq<string>, keys: seq<string>, w: Weights)
    requires WeekExplained(l, s, r, criteria, keys, w)
    requires r.raw == 80.0 && r.resolved.hours == Hours(10.0, 0.0, 0.0)
    requires l.settings.typeWeights == map["work" := 1.0] && l.settings.rate == 0.01 && l.settings.cap == 1.25
    ensures r.factor == 1.1 && r.adjusted == 88.0 && !r.capped
  {
    hide Scored;
  }

  /** Which stored entries a week's score is made of. */
  lemma EntriesAre(l: League, s: Student, week: Week, keys: seq<string>, e: Entry)
    ensures e in EntriesFor(l, s, week, keys) <==>
      exists i :: 0 <= i < |l.entries| && l.entries[i].entry == e && l.entries[i].weekId == week.id
                  && l.entries[i].studentId == s.id && e.key in keys
  {
    hide Where;
    var p := InWeek(week, s, keys);
    var picked := Where(l.entries, p);
    if e in EntriesFor(l, s, week, keys) {
      var j :| 0 <= j < |picked| && EntriesFor(l, s, week, keys)[j] == e;
      WhereMember(l.entries, p, picked[j]);
      var i :| 0 <= i < |l.entries| && l.entries[i] == picked[j];
      assert p(l.entries[i]);
    }
    if i :| 0 <= i < |l.entries| && l.entries[i].entry == e && l.entries[i].weekId == week.id
            && l.entries[i].studentId == s.id && e.key in keys {
      WhereMember(l.entries, p, l.entries[i]);
      var j :| 0 <= j < |picked| && picked[j] == l.entries[i];
      assert EntriesFor(l, s, week, keys)[j] == e;
    }
  }

  /** The windows: an unknown week gives none; a single week is itself; the cumulative
      window is everything up to the week; a rolling one of n weeks is the last n of these,
      or all of them if there are fewer. */
  lemma WindowsAre(weeks: seq<Week>, weekId: string, mode: WindowMode, i: nat)
    requires i < |weeks| && weeks[i].id == weekId && forall j | 0 <= j < i :: weeks[j].id != weekId
    ensures var window := WindowWeeks(weeks, weekId, mode);
      && |window| <= i + 1 && window == weeks[i + 1 - |window|..i + 1]
      && (mode.SingleWeek? ==> |window| == 1)
      && (mode.Cumulative? ==> |window| == i + 1)
      && (mode.Rolling? ==> |window| == if mode.n <= 0 then 0 else if mode.n <= i + 1 then mode.n else i + 1)
  {
    FirstWithId(weeks, weekId, i);
    hide FirstIndex;
  }

  lemma {:induction false} FirstWithId(weeks: seq<Week>, weekId: string, i: nat)
    requires i < |weeks| && weeks[i].id == weekId && forall j | 0 <= j < i :: weeks[j].id != weekId
    ensures FirstIndex(weeks, HasId(weekId)) == Some(i)
    decreases i
  {
    if i > 0 {
      assert weeks[1..][i - 1] == weeks[i] && forall j | 0 <= j < i - 1 :: weeks[1..][j] == weeks[j + 1];
      FirstWithId(weeks[1..], weekId, i - 1);
    }
  }

  lemma UnknownWeek(weeks: seq<Week>, weekId: string, mode: WindowMode)
    requires forall i | 0 <= i < |weeks| :: weeks[i].id != weekId
    ensures WindowWeeks(weeks, weekId, mode) == []
  {
    hide FirstIndex;
  }

  /* The table and the ledger. */

  /** The table sees the commitments only through the hours in effect. */
  ghost predicate SameHours(a: League, b: League) {
    forall s: Student, week: Week :: HoursOf(a, s, week) == HoursOf(b, s, week)
  }

  ghost predicate SameButCommitments(a: League, b: League) { b == a.(baselines := b.baselines, updates := b.updates) }

  lemma {:induction false} WeeksByHours(a: League, b: League, s: Student, weeks: seq<Week>, criteria: seq<string>, keys: seq<string>, w: Weights)
    requires SameButCommitments(a, b) && SameHours(a, b)
    ensures WeekRows(a, s, weeks, criteria, keys, w) == WeekRows(b, s, weeks, criteria, keys, w)
    decreases |weeks|
  {
    hide Scored;
    hide HoursOf;
    hide MakeWeek;
    hide Where;
    hide Mapped;
    if weeks != [] {
      WeeksByHours(a, b, s, weeks[..|weeks| - 1], criteria, keys, w);
    }
  }

  lemma {:induction false} RowsByHours(a: League, b: League, students: seq<Student>, weeks: seq<Week>, criteria: seq<string>, keys: seq<string>, w: Weights)
    requires SameButCommitments(a, b) && SameHours(a, b)
    ensures RowsOf(a, students, weeks, criteria, keys, w) == RowsOf(b, students, weeks, criteria, keys, w)
    decreases |students|
  {
    hide WeekRows;
    hide MakeRow;
    hide HoursOf;
    if students != [] {
      RowsByHours(a, b, students[..|students| - 1], weeks, criteria, keys, w);
      WeeksByHours(a, b, students[|students| - 1], weeks, criteria, keys, w);
    }
  }

  /** A class's league read off the ledger. */
  function WithLedger(l: League, t: Ledger.Tables, c: string): League {
    l.(baselines := LedgerLaws.ListBaselines(t, c), updates := LedgerLaws.ListUpdates(t, c))
  }

  /** The hours behind a row are the hours in effect that the log records. */
  lemma TableUsesHoursInEffect(l: League, t: Ledger.Tables, c: string, s: Student, week: Week)
    ensures HoursOf(WithLedger(l, t, c), s, week) == LedgerRuns.HoursAt(t, Key(c, s.id, week.number))
  {
    LedgerLaws.ListingsGiveHoursInEffect(t, Key(c, s.id, week.number));
  }

  /** Whatever a run did, if each student-week of the class saw well-nested saves and
      reversals and no student of it an approval, the league table is as it was. */
  lemma UndoneRunLeavesTable(l: League, t: Ledger.Tables, ops: seq<Ledger.Op>, c: string,
                             weekId: string, mode: WindowMode, keys: seq<string>, w: Weights)
    requires LedgerInvariant.Valid(t)
    requires forall k: Key | k.classId == c :: LedgerRuns.WellNested(t, ops, k)
    requires forall s: string :: LedgerRuns.NoApproval(t, ops, c, s)
    ensures TableRows(WithLedger(l, Ledger.Run(t, ops), c), weekId, mode, keys, w)
            == TableRows(WithLedger(l, t, c), weekId, mode, keys, w)
  {
    hide RowsOf;
    hide HoursOf;
    hide WindowWeeks;
    hide Where;
    hide LedgerRuns.HoursAt;
    hide Ledger.Run;
    hide LedgerInvariant.Valid;
    hide LedgerRuns.WellNested;
    hide LedgerRuns.NoApproval;
    var a, b := WithLedger(l, t, c), WithLedger(l, Ledger.Run(t, ops), c);
    forall s: Student, week: Week ensures HoursOf(a, s, week) == HoursOf(b, s, week) {
      TableUsesHoursInEffect(l, t, c, s, week);
      TableUsesHoursInEffect(l, Ledger.Run(t, ops), c, s, week);
      LedgerRuns.UndoLaw(t, ops, Key(c, s.id, week.number));
    }
    RowsByHours(a, b, l.students, WindowWeeks(l.weeks, weekId, mode), Where(l.criteria, IsKey(keys)), keys, w);
  }
}
