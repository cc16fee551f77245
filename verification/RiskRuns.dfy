/** A student's weekly history up to a week, and the runs the risk signals count. */
module RiskRuns {
  import opened Wrappers
  import opened Sequences
  import opened Scoring
  import opened LeagueTable

  datatype RiskWeek = RiskWeek(number: int, raw: Option<real>, hasEntries: bool)

  /** A missing or zero joining week counts as week 1. */
  function Joined(week: Option<int>): int { if week.None? || week.value == 0 then 1 else week.value }

  function OfStudentWeek(s: Student, week: Week): StoredEntry -> bool {
    (e: StoredEntry) => e.weekId == week.id && e.studentId == s.id
  }

  ghost function RiskWeekOf(l: League, s: Student, week: Week, w: Weights): RiskWeek {
    var entries := Mapped(Where(l.entries, OfStudentWeek(s, week)), EntryOf());
    RiskWeek(week.number, if entries == [] then None else Scored(entries, l.criteria, w).score, entries != [])
  }

  ghost function History(l: League, s: Student, weeks: seq<Week>, joined: int, upTo: int, w: Weights): seq<RiskWeek> {
    if weeks == [] then []
    else
      var week := weeks[|weeks| - 1];
      History(l, s, weeks[..|weeks| - 1], joined, upTo, w)
      + (if joined <= week.number <= upTo then [RiskWeekOf(l, s, week, w)] else [])
  }

  method RiskWeekly(l: League, s: Student, joinedWeek: Option<int>, upTo: int, weights: Weights) returns (out: seq<RiskWeek>)
    ensures out == History(l, s, l.weeks, Joined(joinedWeek), upTo, Normal(weights))
  {
    hide Scored;
    hide Where;
    hide Mapped;
    hide Normal;
    var w := NormaliseWeights(weights);
    out := [];
    for i := 0 to |l.weeks|
      invariant out == History(l, s, l.weeks[..i], Joined(joinedWeek), upTo, w)
    {
      assert l.weeks[..i + 1][..i] == l.weeks[..i];
      var week := l.weeks[i];
      if Joined(joinedWeek) <= week.number <= upTo {
        var entries := Mapped(Where(l.entries, OfStudentWeek(s, week)), EntryOf());
        var raw: Option<real> := None;
        if entries != [] {
          var result := ScoreStudent(entries, l.criteria, w);
          raw := result.score;
        }
        out := out + [RiskWeek(week.number, raw, entries != [])];
      }
    }
    assert l.weeks[..|l.weeks|] == l.weeks;
  }

  /** The history has one row for each week from the one the student joined in, week 1 if
      that is not given, to the evaluated week; a week has entries if any entry of it is the
      student's, and a raw score only then. */
  lemma {:induction false} HistoryIs(l: League, s: Student, weeks: seq<Week>, joined: Option<int>, upTo: int, w: Weights)
    ensures var from := if joined.None? || joined.value == 0 then 1 else joined.value;
      var shown := Where(weeks, (k: Week) => from <= k.number <= upTo);
      var h := History(l, s, weeks, Joined(joined), upTo, w);
      |h| == |shown| && forall i | 0 <= i < |h| :: WeekTold(l, s, shown[i], h[i], w)
    decreases |weeks|
  {
    hide RiskWeekOf;
    hide WeekTold;
    if weeks != [] {
      HistoryIs(l, s, weeks[..|weeks| - 1], joined, upTo, w);
      WeekIsTold(l, s, weeks[|weeks| - 1], w);
    }
  }

  ghost predicate OwnEntry(l: League, s: Student, week: Week, i: nat) {
    i < |l.entries| && l.entries[i].weekId == week.id && l.entries[i].studentId == s.id
  }

  ghost predicate WeekTold(l: League, s: Student, week: Week, r: RiskWeek, w: Weights) {
    && r.number == week.number
    && (r.hasEntries <==> exists i: nat :: OwnEntry(l, s, week, i))
    && (!r.hasEntries ==> r.raw.None?)
    && (r.hasEntries ==> r.raw == Scored(Mapped(Where(l.entries, OfStudentWeek(s, week)), EntryOf()), l.criteria, w).score)
  }

  lemma WeekIsTold(l: League, s: Student, week: Week, w: Weights)
    ensures WeekTold(l, s, week, RiskWeekOf(l, s, week, w), w)
  {
    hide Scored;
    hide Where;
    var p := OfStudentWeek(s, week);
    WhereLast(l.entries, p);
    if Where(l.entries, p) != [] {
      var i :| 0 <= i < |l.entries| && p(l.entries[i]);
      assert OwnEntry(l, s, week, i);
    }
    if i: nat :| OwnEntry(l, s, week, i) {
      assert p(l.entries[i]);
    }
  }

  ghost predicate InTermOrder(weeks: seq<Week>) { forall i, j | 0 <= i < j < |weeks| :: weeks[i].number <= weeks[j].number }

  ghost predicate IsPrefix<T>(a: seq<T>, b: seq<T>) { |a| <= |b| && a == b[..|a|] }

  lemma {:induction false} EmptyAfter(l: League, s: Student, weeks: seq<Week>, joined: int, upTo: int, upTo': int, w: Weights)
    requires InTermOrder(weeks) && upTo <= upTo' && weeks != [] && weeks[|weeks| - 1].number <= upTo
    ensures History(l, s, weeks, joined, upTo, w) == History(l, s, weeks, joined, upTo', w)
    decreases |weeks|
  {
    hide RiskWeekOf;
    var init := weeks[..|weeks| - 1];
    if init != [] {
      EmptyAfter(l, s, init, joined, upTo, upTo', w);
    }
  }

  /** A later evaluation only adds weeks at the end. */
  lemma {:induction false} HistoryExtends(l: League, s: Student, weeks: seq<Week>, joined: int, upTo: int, upTo': int, w: Weights)
    requires InTermOrder(weeks) && upTo <= upTo'
    ensures IsPrefix(History(l, s, weeks, joined, upTo, w), History(l, s, weeks, joined, upTo', w))
    decreases |weeks|
  {
    hide RiskWeekOf;
    if weeks != [] {
      if weeks[|weeks| - 1].number <= upTo {
        EmptyAfter(l, s, weeks, joined, upTo, upTo', w);
      } else {
        HistoryExtends(l, s, weeks[..|weeks| - 1], joined, upTo, upTo', w);
      }
    }
  }

  /* The longest run of weeks without entries. */

  ghost predicate EmptyRun(weekly: seq<RiskWeek>, from: int, to: int) {
    0 <= from <= to <= |weekly| && forall i | from <= i < to :: !weekly[i].hasEntries
  }

  ghost predicate LongestEmptyRun(weekly: seq<RiskWeek>, n: nat) {
    && (exists from, to :: EmptyRun(weekly, from, to) && to - from == n)
    && forall from, to | EmptyRun(weekly, from, to) :: to - from <= n
  }

  lemma Avoids(weekly: seq<RiskWeek>, from: int, to: int, k: nat)
    requires EmptyRun(weekly, from, to) && k < |weekly| && weekly[k].hasEntries
    ensures k < from || to <= k
  {
  }

  method MissingRun(weekly: seq<RiskWeek>) returns (best: nat)
    ensures LongestEmptyRun(weekly, best)
  {
    best := 0;
    var run := 0;
    ghost var at := 0;
    assert EmptyRun(weekly, 0, 0);
    for i := 0 to |weekly|
      invariant 0 <= run <= i && EmptyRun(weekly, i - run, i)
      invariant i - run > 0 ==> weekly[i - run - 1].hasEntries
      invariant EmptyRun(weekly, at, at + best) && run <= best
      invariant forall from, to | EmptyRun(weekly, from, to) && to <= i :: to - from <= best
    {
      if weekly[i].hasEntries {
        run := 0;
      } else {
        run := run + 1;
        if run > best {
          best, at := run, i + 1 - run;
        }
      }
      forall from, to | EmptyRun(weekly, from, to) && to <= i + 1 ensures to - from <= best {
        if 0 <= i - run {
          Avoids(weekly, from, to, i - run);
        }
      }
    }
  }

  lemma LongerHistoryLongerRun(a: seq<RiskWeek>, b: seq<RiskWeek>, m: nat, n: nat)
    requires IsPrefix(a, b) && LongestEmptyRun(a, m) && LongestEmptyRun(b, n)
    ensures m <= n
  {
    var from, to :| EmptyRun(a, from, to) && to - from == m;
    forall i | from <= i < to ensures !b[i].hasEntries {
      assert a[i] == b[i];
    }
    assert EmptyRun(b, from, to);
  }

  /** Once on, the missing-data signal stays on in every later week of the term. */
  lemma MissingDataNeverClears(l: League, s: Student, joined: int, upTo: int, upTo': int, w: Weights,
                               m: nat, n: nat, missingWeeks: int)
    requires InTermOrder(l.weeks) && upTo <= upTo'
    requires LongestEmptyRun(History(l, s, l.weeks, joined, upTo, w), m)
    requires LongestEmptyRun(History(l, s, l.weeks, joined, upTo', w), n)
    ensures m >= missingWeeks ==> n >= missingWeeks
  {
    hide History;
    hide LongestEmptyRun;
    hide IsPrefix;
    HistoryExtends(l, s, l.weeks, joined, upTo, upTo', w);
    LongerHistoryLongerRun(History(l, s, l.weeks, joined, upTo, w), History(l, s, l.weeks, joined, upTo', w), m, n);
  }

  /* The falling suffix. */

  function HasRaw(): RiskWeek -> bool { (r: RiskWeek) => r.raw.Some? }

  function RawsOf(weekly: seq<RiskWeek>): seq<real> {
    Mapped(Where(weekly, HasRaw()), (r: RiskWeek) => r.raw.GetOr(0.0))
  }

  predicate Falls(raws: seq<real>, i: int)
    requires 0 < i < |raws|
  {
    raws[i] < raws[i - 1] - TOLERANCE
  }

  /** The last n steps fall, and the one before them does not or there is none. */
  ghost predicate FallingSuffix(raws: seq<real>, n: nat) {
    && (n > 0 ==> n < |raws|)
    && (forall i | 0 < i < |raws| && i >= |raws| - n :: Falls(raws, i))
    && (n + 1 < |raws| ==> !Falls(raws, |raws| - n - 1))
  }

  method DeclineRun(weekly: seq<RiskWeek>) returns (run: nat)
    ensures FallingSuffix(RawsOf(weekly), run)
  {
    var raws := RawsOf(weekly);
    run := 0;
    var i := |raws| - 1;
    while i > 0
      invariant i == |raws| - 1 - run && (run > 0 ==> i >= 0)
      invariant forall j | 0 < j < |raws| && j > i :: Falls(raws, j)
    {
      if raws[i] < raws[i - 1] - TOLERANCE {
        run := run + 1;
      } else {
        return;
      }
      i := i - 1;
    }
  }

  lemma InsideFalls(raws: seq<real>, n: nat, m: nat)
    requires FallingSuffix(raws, n) && m < n
    ensures m + 1 < |raws| && Falls(raws, |raws| - m - 1)
  {
  }

  /** The run is determined by the history. */
  lemma FallingSuffixUnique(raws: seq<real>, m: nat, n: nat)
    requires FallingSuffix(raws, m) && FallingSuffix(raws, n)
    ensures m == n
  {
    if m < n {
      InsideFalls(raws, n, m);
    } else if n < m {
      InsideFalls(raws, m, n);
    }
  }

  lemma {:induction false} FallsThrough(raws: seq<real>, n: nat, i: int, j: int)
    requires FallingSuffix(raws, n) && |raws| - n - 1 <= i < j < |raws| && 0 <= i
    ensures raws[j] < raws[i] - TOLERANCE * (j - i) as real
    decreases j - i
  {
    assert Falls(raws, j);
    if i < j - 1 {
      FallsThrough(raws, n, i, j - 1);
    }
  }

  /** A falling run of n weeks is a total fall of more than n tolerances, whatever the
      scores in between. */
  lemma RunIsTotalFall(raws: seq<real>, n: nat)
    requires FallingSuffix(raws, n) && n > 0
    ensures raws[|raws| - 1] < raws[|raws| - n - 1] - TOLERANCE * n as real
  {
    FallsThrough(raws, n, |raws| - n - 1, |raws| - 1);
  }

  /** Next week's score either extends the run by one or ends it: the downward trend
      never stays on through a week that does not fall. */
  lemma NextWeekExtendsOrEnds(raws: seq<real>, next: real, m: nat, n: nat)
    requires raws != [] && FallingSuffix(raws, m) && FallingSuffix(raws + [next], n)
    ensures n == if next < raws[|raws| - 1] - 0.000000001 then m + 1 else 0
  {
    var longer := raws + [next];
    var k := if next < raws[|raws| - 1] - TOLERANCE then m + 1 else 0;
    forall i | 0 < i < |longer| && i >= |longer| - k ensures Falls(longer, i) {
      if i < |raws| {
        assert Falls(raws, i);
      }
    }
    if k + 1 < |longer| && k > 0 {
      assert !Falls(raws, |raws| - m - 1);
    }
    FallingSuffixUnique(longer, k, n);
  }
}
