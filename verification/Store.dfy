/** The commitments store: the tables updated in place, one method per transaction. */
module Store {
  import opened Wrappers
  import opened Sequences
  import opened Identifiers
  import opened Commitments
  import opened Ledger
  import opened UndoStacks
  import opened LedgerInvariant
  import opened LedgerLaws
  import opened LedgerEffects
  import opened Seeding

  class CommitmentStore {
    var baselines: seq<BaselineRow>
    var updates: seq<UpdateRow>
    var log: seq<LogRow>

    ghost function Contents(): Tables
      reads this
    {
      Tables(baselines, updates, log)
    }

    ghost predicate Ready()
      reads this
    {
      Valid(Contents())
    }

    constructor (seed: seq<SeedClass>)
      requires GoodSeed(seed)
      ensures Ready() && Contents() == Seeded(Tables([], [], []), seed)
    {
      baselines, updates, log := [], [], [];
      new;
      Seed(seed);
      SeededIsValid(seed);
    }

    /** Insert the seed rows that are not there yet. */
    method Seed(seed: seq<SeedClass>)
      modifies this
      ensures Contents() == Seeded(old(Contents()), seed)
    {
      ghost var bs0, us0 := baselines, updates;
      for c := 0 to |seed|
        invariant log == old(log)
        invariant InsertAll(baselines, AllBaselines(seed[c..]), BaselineId()) == InsertAll(bs0, AllBaselines(seed), BaselineId())
        invariant InsertAll(updates, AllUpdates(seed[c..]), UpdateId()) == InsertAll(us0, AllUpdates(seed), UpdateId())
      {
        assert seed[c..][0] == seed[c] && seed[c..][1..] == seed[c + 1..];
        InsertAllConcat(baselines, OwnBaselines(seed[c]), AllBaselines(seed[c + 1..]), BaselineId());
        InsertAllConcat(updates, OwnUpdates(seed[c]), AllUpdates(seed[c + 1..]), UpdateId());
        SeedBaselines(seed[c]);
        SeedUpdates(seed[c]);
      }
      assert seed[|seed|..] == [];
    }

    method SeedBaselines(s: SeedClass)
      modifies this`baselines
      ensures baselines == InsertAll(old(baselines), OwnBaselines(s), BaselineId())
    {
      ghost var rows := OwnBaselines(s);
      for i := 0 to |s.baselines|
        invariant InsertAll(baselines, rows[i..], BaselineId()) == InsertAll(old(baselines), rows, BaselineId())
      {
        assert rows[i..][1..] == rows[i + 1..];
        var row := s.baselines[i].(classId := s.classId);
        if !(exists j :: 0 <= j < |baselines| && BaselineId()(baselines[j]) == BaselineId()(row)) {
          baselines := baselines + [row];
        }
      }
    }

    method SeedUpdates(s: SeedClass)
      modifies this`updates
      ensures updates == InsertAll(old(updates), OwnUpdates(s), UpdateId())
    {
      ghost var rows := OwnUpdates(s);
      for i := 0 to |s.updates|
        invariant InsertAll(updates, rows[i..], UpdateId()) == InsertAll(old(updates), rows, UpdateId())
      {
        assert rows[i..][1..] == rows[i + 1..];
        var row := s.updates[i].(classId := s.classId, supersededBy := None);
        if !(exists j :: 0 <= j < |updates| && UpdateId()(updates[j]) == UpdateId()(row)) {
          updates := updates + [row];
        }
      }
    }

    method AddLog(c: string, actor: string, action: Action, s: string, weekId: Option<string>,
                  oldValues: Option<LogValues>, newValues: Option<LogValues>, at: Stamp)
      modifies this`log
      ensures log == Logged(old(log), c, actor, action, s, weekId, oldValues, newValues, at)
    {
      var id := ComputeNextId(LogIds(log, c), c + LOG_TAG);
      log := log + [LogRow(id, c, actor, action, s, weekId, oldValues, newValues, at)];
    }

    method ResolveNow(k: Key) returns (r: Resolved)
      requires Linked(updates)
      ensures r == HoursInEffect(baselines, updates, k)
      ensures r == ByStack(ApprovedBaseline(baselines, k.classId, k.studentId), Stack(updates, k), k.week)
    {
      var approved := Where(baselines, ApprovedFor(k.classId, k.studentId));
      var live := Where(updates, LiveFor(k.classId, k.studentId));
      r := ResolveHours(LastOf(approved), live, k.week);
      HoursFollowStack(baselines, updates, k);
    }

    method SaveBaseline(c: string, s: string, hours: HoursInput, at: Stamp, actor: Option<string>) returns (row: BaselineRow)
      requires Ready()
      modifies this
      ensures Ready() && Contents() == Step(old(Contents()), SubmitBaseline(c, s, hours, at, actor)).0
      ensures baselines == old(baselines) + [row] && row.status == Pending
      ensures row.classId == c && row.studentId == s && AsRequested(row.hours, hours)
    {
      var previous := LastOf(Where(baselines, NotSupersededFor(c, s)));
      var id := ComputeNextId(BaselineIds(baselines, c), c + BASELINE_TAG);
      row := BaselineRow(id, c, s, HoursColumns(hours), Pending, None, at, None, None);
      baselines := baselines + [row];
      AddLog(c, OrElse(actor, s), BaselineSubmit, s, None,
             if previous.Some? then Some(Plain(previous.value.hours)) else None, Some(Plain(row.hours)), at);
      SubmitStep(old(Contents()), c, s, hours, at, actor);
    }

    method SaveWeeklyUpdate(c: string, s: string, weekId: string, week: int, hours: HoursInput, at: Stamp,
                            actor: Option<string>) returns (row: UpdateRow)
      requires Ready()
      modifies this
      ensures Ready() && Contents() == Step(old(Contents()), SetWeekly(c, s, weekId, week, hours, at, actor)).0
      ensures Stack(updates, Key(c, s, week)) == old(Stack(updates, Key(c, s, week))) + [row.hours]
      ensures KeyOf(row) == Key(c, s, week) && row.weekId == weekId && AsRequested(row.hours, hours)
    {
      hide FirstIndex;
      hide Where;
      hide Stack;
      hide NextId;
      hide Linked;
      hide ApprovedBaseline;
      hide GoodBaselines;
      hide GoodLog;
      ghost var op := SetWeekly(c, s, weekId, week, hours, at, actor);
      var before := ResolveNow(Key(c, s, week));
      var current := FirstIndex(updates, LiveWeekly(Key(c, s, week)));
      var id := ComputeNextId(UpdateIds(updates, c), c + UPDATE_TAG);
      row := UpdateRow(id, c, s, weekId, week, HoursColumns(hours), at, None, None, None);
      updates := updates + [row];
      if current.Some? {
        updates := updates[current.value := updates[current.value].(supersededBy := Some(id))];
      }
      var applies := before.source == Baseline || before.source == Weekly;
      AddLog(c, OrElse(actor, s), WeeklySet, s, Some(weekId),
             if applies then Some(Plain(before.hours)) else None, Some(Plain(row.hours)), at);
      assert Contents() == Step(old(Contents()), op).0;
      SaveStep(old(Contents()), op);
    }

    method DecideBaseline(c: string, baselineId: string, approve: bool, effective: Option<int>, who: string, at: Stamp)
      returns (outcome: Outcome)
      requires Ready()
      modifies this
      ensures Ready()
      ensures (Contents(), outcome) == Step(old(Contents()), Decide(c, baselineId, approve, effective, who, at))
    {
      ghost var op := Decide(c, baselineId, approve, effective, who, at);
      StepKeeps(Contents(), op);
      var found := FirstIndex(baselines, HasBaselineId(c, baselineId));
      if found.None? {
        return NoSuchRow;
      }
      var row := baselines[found.value];
      if row.status != Pending {
        return AlreadyDecided;
      }
      var oldValues := None;
      var effectiveFrom := row.effectiveFrom;
      if approve {
        var previous := ApprovedBaseline(baselines, c, row.studentId);
        if previous.Some? {
          oldValues := Some(Plain(previous.value.hours));
        }
        SupersedeApproved(c, row.studentId);
        effectiveFrom := effective;
      }
      baselines := baselines[found.value :=
        row.(status := if approve then Approved else Rejected, effectiveFrom := effectiveFrom,
             decidedBy := Some(who), decidedAt := Some(at))];
      AddLog(c, who, if approve then BaselineApprove else BaselineReject, row.studentId, None, oldValues,
             Some(LogValues(row.hours, if approve then Some(effective) else None)), at);
      outcome := Accepted;
    }

    method SupersedeApproved(c: string, s: string)
      modifies this`baselines
      ensures baselines == RetireApproved(old(baselines), c, s)
    {
      for i := 0 to |baselines|
        invariant |baselines| == |old(baselines)|
        invariant forall j | 0 <= j < |baselines| ::
          baselines[j] == if j < i then Retired(old(baselines)[j], c, s) else old(baselines)[j]
      {
        if ApprovedFor(c, s)(baselines[i]) {
          baselines := baselines[i := baselines[i].(status := Superseded)];
        }
      }
    }

    method ReverseWeeklyUpdate(c: string, updateId: string, who: string, at: Stamp) returns (outcome: Outcome)
      requires Ready()
      modifies this
      ensures Ready()
      ensures (Contents(), outcome) == Step(old(Contents()), ReverseWeekly(c, updateId, who, at))
      ensures outcome == Accepted <==> exists k :: NamesTop(old(updates), c, updateId, k)
    {
      hide FirstIndex;
      hide Where;
      hide Pile;
      hide Stack;
      hide NextId;
      hide GoodBaselines;
      hide GoodLog;
      ghost var op := ReverseWeekly(c, updateId, who, at);
      StepKeeps(Contents(), op);
      ReversalAcceptedIffTop(Contents(), op);
      var found := FirstIndex(updates, HasUpdateId(c, updateId));
      if found.None? {
        return NoSuchRow;
      }
      var row := updates[found.value];
      if row.reversedAt.Some? {
        return AlreadyReversed;
      }
      if row.supersededBy.Some? {
        return ReplacedByLaterEdit;
      }
      PopStep(updates, found.value, who, at);
      updates := updates[found.value := row.(reversedBy := Some(who), reversedAt := Some(at))];
      var replaced := FirstIndex(updates, PointsAt(c, row.id));
      if replaced.Some? {
        updates := updates[replaced.value := updates[replaced.value].(supersededBy := None)];
      }
      var now := ResolveNow(KeyOf(row));
      AddLog(c, who, WeeklyReverse, row.studentId, Some(row.weekId), Some(Plain(row.hours)), Some(Plain(now.hours)), at);
      outcome := Accepted;
    }
  }
}
