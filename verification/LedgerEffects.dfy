/** What each operation writes, column by column, in terms of the request and of the
    rows before it. */
module LedgerEffects {
  import opened Wrappers
  import opened Sequences
  import opened Identifiers
  import opened Commitments
  import opened Ledger
  import opened UndoStacks
  import opened LedgerInvariant
  import opened LedgerRuns
  import LedgerLaws

  /** Each kind of hours lands in its own column; what was not given is zero. */
  ghost predicate AsRequested(h: Hours, r: HoursInput) {
    && h.work == (if r.work.Some? then r.work.value else 0.0)
    && h.childcare == (if r.childcare.Some? then r.childcare.value else 0.0)
    && h.eldercare == (if r.eldercare.Some? then r.eldercare.value else 0.0)
  }

  lemma ColumnsAsRequested(r: HoursInput)
    ensures AsRequested(HoursColumns(r), r)
  {
  }

  /** An entry names the actor, or the student if there is no actor. */
  ghost predicate By(e: LogRow, actor: Option<string>, studentId: string) {
    e.actor == (if actor.Some? && actor.value != "" then actor.value else studentId)
  }

  /** The entry that an accepted operation appends. */
  function NewEntry(t: Tables, op: Op): LogRow
    requires |Step(t, op).0.log| == |t.log| + 1
  {
    Step(t, op).0.log[|t.log|]
  }

  /* Submitting. */

  ghost predicate Standing(b: BaselineRow, c: string, s: string) {
    b.classId == c && b.studentId == s && b.status != Superseded
  }

  /** The old values of a submission are those of the student's latest baseline that
      is not superseded, if there is one. */
  ghost predicate OldSubmission(bs: seq<BaselineRow>, c: string, s: string, logged: Option<LogValues>) {
    if logged.None? then forall i | 0 <= i < |bs| :: !Standing(bs[i], c, s)
    else exists i :: 0 <= i < |bs| && Standing(bs[i], c, s) && logged.value == LogValues(bs[i].hours, None)
                     && forall j | i < j < |bs| :: !Standing(bs[j], c, s)
  }

  lemma LatestStanding(bs: seq<BaselineRow>, c: string, s: string)
    ensures var last := LastOf(Where(bs, NotSupersededFor(c, s)));
      OldSubmission(bs, c, s, if last.Some? then Some(LogValues(last.value.hours, None)) else None)
  {
    hide Where;
    var p := NotSupersededFor(c, s);
    assert forall b: BaselineRow :: p(b) == Standing(b, c, s);
    WhereLast(bs, p);
    if Where(bs, p) != [] {
      var i :| 0 <= i < |bs| && p(bs[i]) && Where(bs, p)[|Where(bs, p)| - 1] == bs[i] && forall j | i < j < |bs| :: !p(bs[j]);
      assert Standing(bs[i], c, s) && forall j | i < j < |bs| :: !Standing(bs[j], c, s);
    }
  }

  /** A submission appends one pending row with the requested hours and logs the change
      from the student's latest standing baseline. */
  lemma SubmissionWrites(t: Tables, op: Op)
    requires op.SubmitBaseline?
    ensures Step(t, op).1 == Accepted
    ensures var t' := Step(t, op).0;
      && t'.updates == t.updates && |t'.baselines| == |t.baselines| + 1 && t'.baselines[..|t.baselines|] == t.baselines
      && |t'.log| == |t.log| + 1 && t'.log[..|t.log|] == t.log
    ensures var b := Step(t, op).0.baselines[|t.baselines|];
      && b.classId == op.classId && b.studentId == op.studentId && AsRequested(b.hours, op.hours)
      && b.status == Pending && b.effectiveFrom.None? && b.submittedAt == op.at && b.decidedBy.None? && b.decidedAt.None?
    ensures var e := NewEntry(t, op);
      && e.classId == op.classId && e.studentId == op.studentId && By(e, op.actor, op.studentId)
      && e.action == BaselineSubmit && e.weekId.None? && e.at == op.at
      && e.newValues == Some(LogValues(Step(t, op).0.baselines[|t.baselines|].hours, None))
      && OldSubmission(t.baselines, op.classId, op.studentId, e.oldValues)
  {
    hide NextId;
    hide Where;
    hide OldSubmission;
    hide HoursColumns;
    ColumnsAsRequested(op.hours);
    LatestStanding(t.baselines, op.classId, op.studentId);
  }

  /** The commitments view shows the student's latest standing baseline, whatever its
      status, and apart from it the approved one. */
  lemma CommitmentsShow(t: Tables, c: string, s: string)
    ensures var b := LedgerLaws.GetCommitments(t, c, s).baseline;
      if b.None? then forall i | 0 <= i < |t.baselines| :: !Standing(t.baselines[i], c, s)
      else exists i :: 0 <= i < |t.baselines| && Standing(t.baselines[i], c, s) && b.value == t.baselines[i]
                       && forall j | i < j < |t.baselines| :: !Standing(t.baselines[j], c, s)
    ensures var b := LedgerLaws.GetCommitments(t, c, s).active;
      b.Some? ==> b.value in t.baselines && b.value.status == Approved && b.value.classId == c && b.value.studentId == s
  {
    hide Where;
    var p := NotSupersededFor(c, s);
    assert forall b: BaselineRow :: p(b) == Standing(b, c, s);
    WhereLast(t.baselines, p);
    if Where(t.baselines, p) != [] {
      var i :| 0 <= i < |t.baselines| && p(t.baselines[i]) && Where(t.baselines, p)[|Where(t.baselines, p)| - 1] == t.baselines[i]
               && forall j | i < j < |t.baselines| :: !p(t.baselines[j]);
      assert Standing(t.baselines[i], c, s) && forall j | i < j < |t.baselines| :: !Standing(t.baselines[j], c, s);
    }
    LedgerLaws.ReadersAgree(t, c, s);
    ApprovedIsApproved(t.baselines, c, s);
  }

  /** New ids are the class, a tag that tells the table and a number. */
  lemma NewIdsAre(t: Tables, op: Op)
    requires Valid(t)
    ensures op.SubmitBaseline? ==> OfForm(Step(t, op).0.baselines[|t.baselines|].id, op.classId + "-b")
    ensures op.SetWeekly? ==> OfForm(Step(t, op).0.updates[|t.updates|].id, op.classId + "-u")
    ensures Step(t, op).1 == Accepted ==> OfForm(Step(t, op).0.log[|t.log|].id, op.classId + "-log")
  {
    hide OfForm;
    hide NextId;
    hide HoursInEffect;
    hide Popped;
    hide Where;
    hide ApprovedBaseline;
    hide RetireApproved;
    NewBaselineIdFresh(t.baselines, op.classId);
    NewUpdateIdFresh(t.updates, op.classId);
    NewLogIdFresh(t.log, op.classId);
  }

  /* Saving. */

  ghost predicate Live(u: UpdateRow, k: Key) {
    u.classId == k.classId && u.studentId == k.studentId && u.week == k.week
    && u.reversedAt.None? && u.supersededBy.None?
  }

  /** A save appends one row with the requested hours; the week's live row, and no
      other, is changed, and only by a pointer to the new row. */
  lemma SaveWrites(t: Tables, op: Op)
    requires Valid(t) && op.SetWeekly?
    ensures Step(t, op).1 == Accepted
    ensures var t' := Step(t, op).0;
      && t'.baselines == t.baselines && |t'.updates| == |t.updates| + 1
      && |t'.log| == |t.log| + 1 && t'.log[..|t.log|] == t.log
    ensures var t' := Step(t, op).0;
      var u := t'.updates[|t.updates|];
      && u.classId == op.classId && u.studentId == op.studentId && u.weekId == op.weekId && u.week == op.week
      && AsRequested(u.hours, op.hours) && u.enteredAt == op.at
      && u.reversedBy.None? && u.reversedAt.None? && u.supersededBy.None?
    ensures var t' := Step(t, op).0;
      var id := t'.updates[|t.updates|].id;
      forall j | 0 <= j < |t.updates| ::
        t'.updates[j] == if Live(t.updates[j], Key(op.classId, op.studentId, op.week))
                         then t.updates[j].(supersededBy := Some(id)) else t.updates[j]
  {
    hide NextId;
    hide HoursInEffect;
    hide GoodBaselines;
    hide GoodLog;
    hide HoursColumns;
    hide FirstIndex;
    hide Pile;
    ColumnsAsRequested(op.hours);
    var k := Key(op.classId, op.studentId, op.week);
    LiveOnce(t.updates, k);
  }

  /** At most one row of a student-week is live. */
  lemma LiveOnce(us: seq<UpdateRow>, k: Key)
    requires Linked(us)
    ensures forall i, j | 0 <= i < |us| && 0 <= j < |us| && Live(us[i], k) && Live(us[j], k) :: i == j
  {
    hide Linked;
    hide Pile;
    forall i, j | 0 <= i < |us| && 0 <= j < |us| && Live(us[i], k) && Live(us[j], k) ensures i == j {
      LiveRowIsTop(us, k, i);
      LiveRowIsTop(us, k, j);
    }
  }

  /** A save's entry: the hours in effect before it, if any applied, and the requested
      hours. */
  lemma SaveLogs(t: Tables, op: Op)
    requires op.SetWeekly?
    ensures |Step(t, op).0.log| == |t.log| + 1
    ensures var e, before := NewEntry(t, op), HoursAt(t, Key(op.classId, op.studentId, op.week));
      && e.classId == op.classId && e.studentId == op.studentId && By(e, op.actor, op.studentId)
      && e.action == WeeklySet && e.weekId == Some(op.weekId) && e.at == op.at
      && e.newValues.Some? && AsRequested(e.newValues.value.hours, op.hours) && e.newValues.value.effective.None?
      && e.oldValues == if before.source == Baseline || before.source == Weekly
                        then Some(LogValues(before.hours, None)) else None
  {
    hide NextId;
    hide HoursInEffect;
    hide Pushed;
    hide HoursColumns;
    ColumnsAsRequested(op.hours);
  }

  /** Under an approved baseline a saved week is in effect at once, with the hours
      requested. */
  lemma SaveTakesEffect(t: Tables, op: Op)
    requires Valid(t) && op.SetWeekly? && ApprovedBaseline(t.baselines, op.classId, op.studentId).Some?
    ensures var r := HoursAt(Step(t, op).0, Key(op.classId, op.studentId, op.week));
      r.source == Weekly && AsRequested(r.hours, op.hours)
  {
    hide Step;
    hide Stack;
    hide HoursInEffect;
    hide HoursColumns;
    hide ApprovedBaseline;
    var t', k := Step(t, op).0, Key(op.classId, op.studentId, op.week);
    ColumnsAsRequested(op.hours);
    SaveStep(t, op);
    HoursFollowStack(t'.baselines, t'.updates, k);
  }

  /* Deciding. */

  ghost predicate IsBaseline(b: BaselineRow, c: string, id: string) { b.classId == c && b.id == id }

  /** A decision is refused because there is no such row or because it is not pending,
      and for no other reason. */
  lemma DecisionOutcome(t: Tables, op: Op)
    requires Valid(t) && op.Decide?
    ensures Step(t, op).1 == NoSuchRow <==> forall i | 0 <= i < |t.baselines| :: !IsBaseline(t.baselines[i], op.classId, op.baselineId)
    ensures forall i | 0 <= i < |t.baselines| && IsBaseline(t.baselines[i], op.classId, op.baselineId) ::
      Step(t, op).1 == if t.baselines[i].status == Pending then Accepted else AlreadyDecided
  {
    hide NextId;
    hide FirstIndex;
    hide ApprovedBaseline;
    hide RetireApproved;
    hide DecidedRow;
    var p := HasBaselineId(op.classId, op.baselineId);
    var found := FirstIndex(t.baselines, p);
    assert forall b: BaselineRow :: p(b) == IsBaseline(b, op.classId, op.baselineId);
  }

  /** An accepted decision writes the decided row, retires the student's approved rows if
      it approves, and changes no other row. */
  lemma DecisionWrites(t: Tables, op: Op, i: nat)
    requires Valid(t) && op.Decide? && i < |t.baselines| && IsBaseline(t.baselines[i], op.classId, op.baselineId)
    requires t.baselines[i].status == Pending
    ensures var b, t' := t.baselines[i], Step(t, op).0;
      && Step(t, op).1 == Accepted && t'.updates == t.updates && |t'.baselines| == |t.baselines|
      && t'.baselines[i] == b.(status := if op.approve then Approved else Rejected,
                               effectiveFrom := if op.approve then op.effective else b.effectiveFrom,
                               decidedBy := Some(op.who), decidedAt := Some(op.at))
      && forall j | 0 <= j < |t.baselines| && j != i ::
           var d := t.baselines[j];
           t'.baselines[j] == if op.approve && d.classId == op.classId && d.studentId == b.studentId && d.status == Approved
                              then d.(status := Superseded) else d
  {
    hide NextId;
    hide ApprovedBaseline;
    BaselineFound(t, op, i);
  }

  lemma BaselineFound(t: Tables, op: Op, i: nat)
    requires GoodBaselines(t.baselines) && op.Decide? && i < |t.baselines| && IsBaseline(t.baselines[i], op.classId, op.baselineId)
    ensures FirstIndex(t.baselines, HasBaselineId(op.classId, op.baselineId)) == Some(i)
  {
    hide FirstIndex;
    FirstIndexOnly(t.baselines, HasBaselineId(op.classId, op.baselineId), i);
  }

  /** A decision's entry: an approval records the hours of the baseline that was approved
      before, if any, and the effective week; a rejection neither. */
  lemma DecisionLogs(t: Tables, op: Op, i: nat)
    requires Valid(t) && op.Decide? && i < |t.baselines| && IsBaseline(t.baselines[i], op.classId, op.baselineId)
    requires t.baselines[i].status == Pending
    ensures |Step(t, op).0.log| == |t.log| + 1
    ensures var e, b := NewEntry(t, op), t.baselines[i];
      && e.classId == op.classId && e.studentId == b.studentId && e.actor == op.who && e.weekId.None? && e.at == op.at
      && e.action == (if op.approve then BaselineApprove else BaselineReject)
      && e.newValues == Some(LogValues(b.hours, if op.approve then Some(op.effective) else None))
      && (!op.approve ==> e.oldValues.None?)
      && (op.approve && e.oldValues.None? ==>
            forall j | 0 <= j < |t.baselines| :: !ApprovedFor(op.classId, b.studentId)(t.baselines[j]))
      && (e.oldValues.Some? ==>
            exists j :: 0 <= j < |t.baselines| && ApprovedFor(op.classId, b.studentId)(t.baselines[j])
                        && e.oldValues.value == LogValues(t.baselines[j].hours, None))
  {
    hide NextId;
    hide Where;
    hide RetireApproved;
    hide DecidedRow;
    hide FirstIndex;
    hide Valid;
    assert GoodBaselines(t.baselines) by {
      ValidBaselines(t);
    }
    BaselineFound(t, op, i);
    WhereLast(t.baselines, ApprovedFor(op.classId, t.baselines[i].studentId));
  }

  lemma ValidBaselines(t: Tables)
    requires Valid(t)
    ensures GoodBaselines(t.baselines)
  {
  }

  /* Reversing. */

  ghost predicate IsUpdate(u: UpdateRow, c: string, id: string) { u.classId == c && u.id == id }

  lemma UpdateFound(t: Tables, op: Op, i: nat)
    requires DistinctIds(t.updates) && op.ReverseWeekly? && i < |t.updates| && IsUpdate(t.updates[i], op.classId, op.updateId)
    ensures FirstIndex(t.updates, HasUpdateId(op.classId, op.updateId)) == Some(i)
  {
    hide FirstIndex;
    FirstIndexOnly(t.updates, HasUpdateId(op.classId, op.updateId), i);
  }

  /** A reversal is refused because there is no such row, or it is reversed already, or
      a later edit replaced it, and for no other reason. */
  lemma ReversalOutcome(t: Tables, op: Op)
    requires Valid(t) && op.ReverseWeekly?
    ensures Step(t, op).1 == NoSuchRow <==> forall i | 0 <= i < |t.updates| :: !IsUpdate(t.updates[i], op.classId, op.updateId)
    ensures forall i | 0 <= i < |t.updates| && IsUpdate(t.updates[i], op.classId, op.updateId) ::
      Step(t, op).1 == if t.updates[i].reversedAt.Some? then AlreadyReversed
                       else if t.updates[i].supersededBy.Some? then ReplacedByLaterEdit else Accepted
  {
    hide NextId;
    hide FirstIndex;
    hide HoursInEffect;
    hide Popped;
    hide Pile;
    var p := HasUpdateId(op.classId, op.updateId);
    assert forall u: UpdateRow :: p(u) == IsUpdate(u, op.classId, op.updateId);
  }

  /** An accepted reversal marks its row; the row that pointed at it, and no other, loses
      its pointer. */
  lemma ReversalWrites(t: Tables, op: Op, i: nat)
    requires Valid(t) && op.ReverseWeekly? && i < |t.updates| && IsUpdate(t.updates[i], op.classId, op.updateId)
    requires t.updates[i].reversedAt.None? && t.updates[i].supersededBy.None?
    ensures var u, t' := t.updates[i], Step(t, op).0;
      && Step(t, op).1 == Accepted && t'.baselines == t.baselines && |t'.updates| == |t.updates|
      && t'.updates[i] == u.(reversedBy := Some(op.who), reversedAt := Some(op.at))
      && forall j | 0 <= j < |t.updates| && j != i ::
           t'.updates[j] == if t.updates[j].supersededBy == Some(u.id) then t.updates[j].(supersededBy := None) else t.updates[j]
  {
    hide NextId;
    hide HoursInEffect;
    hide Popped;
    hide Pile;
    hide FirstIndex;
    UpdateFound(t, op, i);
    PoppedRows(t.updates, i, op.who, op.at);
  }

  lemma PoppedRows(us: seq<UpdateRow>, i: nat, who: string, at: Stamp)
    requires Linked(us) && i < |us| && us[i].reversedAt.None? && us[i].supersededBy.None?
    ensures var vs := Popped(us, i, who, at);
      && vs[i] == us[i].(reversedBy := Some(who), reversedAt := Some(at))
      && forall j | 0 <= j < |us| && j != i ::
           vs[j] == if us[j].supersededBy == Some(us[i].id) then us[j].(supersededBy := None) else us[j]
  {
    hide Pile;
    hide FirstIndex;
    ReplacedIsNextDown(us, i, who, at);
    forall j | 0 <= j < |us| && us[j].supersededBy == Some(us[i].id) ensures |Pile(us, KeyOf(us[i]))| > 1 && j == Pile(us, KeyOf(us[i]))[|Pile(us, KeyOf(us[i]))| - 2] {
      PointerIsBelowTop(us, j, i);
    }
    hide Linked;
    var found := FirstIndex(MarkReversed(us, i, who, at), PointsAt(us[i].classId, us[i].id));
    if found.Some? {
      assert us[found.value].supersededBy == Some(us[i].id);
    }
  }

  /** A reversal's entry: the hours reversed and the hours in effect now. */
  lemma ReversalLogs(t: Tables, op: Op, i: nat)
    requires Valid(t) && op.ReverseWeekly? && i < |t.updates| && IsUpdate(t.updates[i], op.classId, op.updateId)
    requires t.updates[i].reversedAt.None? && t.updates[i].supersededBy.None?
    ensures |Step(t, op).0.log| == |t.log| + 1
    ensures var e, u := NewEntry(t, op), t.updates[i];
      && e.classId == op.classId && e.studentId == u.studentId && e.actor == op.who && e.weekId == Some(u.weekId)
      && e.action == WeeklyReverse && e.at == op.at
      && e.oldValues == Some(LogValues(u.hours, None))
      && e.newValues == Some(LogValues(HoursAt(Step(t, op).0, Key(u.classId, u.studentId, u.week)).hours, None))
  {
    hide NextId;
    hide HoursInEffect;
    hide Popped;
    hide Pile;
    hide FirstIndex;
    UpdateFound(t, op, i);
  }

  /* Hours, from the rows alone. */

  /** The whole rule: an approved baseline's student-week takes the live row's hours if
      there is one, else the baseline's from its effective week on, else none. */
  lemma HoursFromRows(t: Tables, i: nat, k: Key)
    requires Valid(t) && i < |t.baselines| && t.baselines[i].status == Approved
    requires t.baselines[i].classId == k.classId && t.baselines[i].studentId == k.studentId
    ensures forall j | 0 <= j < |t.updates| && Live(t.updates[j], k) :: HoursAt(t, k) == Resolved(t.updates[j].hours, Weekly)
    ensures (forall j | 0 <= j < |t.updates| :: !Live(t.updates[j], k)) ==>
      var b := t.baselines[i];
      var from := if b.effectiveFrom.None? || b.effectiveFrom.value == 0 then 1 else b.effectiveFrom.value;
      HoursAt(t, k) == if k.week >= from then Resolved(b.hours, Baseline) else Resolved(Hours(0.0, 0.0, 0.0), BeforeEffective)
  {
    hide Pile;
    hide Where;
    hide HoursInEffect;
    hide GoodLog;
    WhereOnly(t.baselines, ApprovedFor(k.classId, k.studentId), i);
    HoursFollowStack(t.baselines, t.updates, k);
    hide Linked;
    assert Linked(t.updates);
    forall j | 0 <= j < |t.updates| && Live(t.updates[j], k) ensures HoursAt(t, k) == Resolved(t.updates[j].hours, Weekly) {
      LiveRowIsTop(t.updates, k, j);
    }
    if Pile(t.updates, k) != [] {
      TopRowIsLive(t.updates, k);
      assert Live(t.updates[Pile(t.updates, k)[|Pile(t.updates, k)| - 1]], k);
    }
  }

  /** A baseline that is not approved gives no hours, whatever the weekly rows say. */
  lemma OnlyApprovedCounts(b: Option<BaselineRow>, updates: seq<UpdateRow>, week: int)
    ensures (b.Some? && b.value.status == Approved) || ResolveHours(b, updates, week).hours == Hours(0.0, 0.0, 0.0)
    ensures ResolveHours(b, updates, week).source ==
      if b.None? then NoBaseline
      else if b.value.status != Approved then NotApproved(b.value.status)
      else if exists i :: 0 <= i < |updates| && updates[i].week == week && updates[i].reversedAt.None? then Weekly
      else if week >= EffectiveWeek(b.value) then Baseline else BeforeEffective
  {
    hide FirstIndex;
    if b.Some? && b.value.status == Approved {
      var found := FirstIndex(updates, AppliesTo(week));
      if found.Some? {
        assert updates[found.value].week == week && updates[found.value].reversedAt.None?;
      } else {
        assert forall i | 0 <= i < |updates| :: !AppliesTo(week)(updates[i]);
      }
    }
  }
}
