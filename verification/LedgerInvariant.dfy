/** What every reachable ledger satisfies, that each operation keeps it, and what
    each operation does to the undo stacks, the approved baselines and the log. */
module LedgerInvariant {
  import opened Wrappers
  import opened Sequences
  import opened Identifiers
  import opened Commitments
  import opened Ledger
  import opened UndoStacks

  ghost predicate OneApproved(bs: seq<BaselineRow>) {
    forall i, j | 0 <= i < j < |bs| ::
      !(bs[i].status == Approved && bs[j].status == Approved
        && bs[i].classId == bs[j].classId && bs[i].studentId == bs[j].studentId)
  }

  ghost predicate GoodBaselines(bs: seq<BaselineRow>) {
    && (forall i | 0 <= i < |bs| :: OfForm(bs[i].id, bs[i].classId + BASELINE_TAG))
    && (forall i, j | 0 <= i < j < |bs| :: bs[i].id != bs[j].id)
    && OneApproved(bs)
  }

  ghost predicate GoodUpdates(us: seq<UpdateRow>) {
    && (forall i | 0 <= i < |us| :: OfForm(us[i].id, us[i].classId + UPDATE_TAG))
    && Linked(us)
  }

  ghost predicate GoodLog(log: seq<LogRow>) {
    && (forall i | 0 <= i < |log| :: OfForm(log[i].id, log[i].classId + LOG_TAG))
    && (forall i, j | 0 <= i < j < |log| :: log[i].id != log[j].id)
  }

  ghost predicate Valid(t: Tables) {
    GoodBaselines(t.baselines) && GoodUpdates(t.updates) && GoodLog(t.log)
  }

  /* New ids are new in the whole table, although only the class's own ids were looked at. */

  lemma NewBaselineIdFresh(bs: seq<BaselineRow>, c: string)
    requires forall i | 0 <= i < |bs| :: OfForm(bs[i].id, bs[i].classId + BASELINE_TAG)
    ensures var id := NextId(BaselineIds(bs, c), c + BASELINE_TAG);
      OfForm(id, c + BASELINE_TAG) && forall i | 0 <= i < |bs| :: bs[i].id != id
  {
    var ids := BaselineIds(bs, c);
    var id := NextId(ids, c + BASELINE_TAG);
    NextIdFresh(ids, c + BASELINE_TAG);
    forall i | 0 <= i < |bs| ensures bs[i].id != id {
      if bs[i].classId == c {
        WhereMember(bs, InClass(c), bs[i]);
        var j :| 0 <= j < |Where(bs, InClass(c))| && Where(bs, InClass(c))[j] == bs[i];
        assert ids[j] == bs[i].id;
      } else if bs[i].id == id {
        ClassesNeverCollide(id, c, bs[i].classId, BASELINE_TAG);
      }
    }
  }

  lemma NewUpdateIdFresh(us: seq<UpdateRow>, c: string)
    requires forall i | 0 <= i < |us| :: OfForm(us[i].id, us[i].classId + UPDATE_TAG)
    ensures var id := NextId(UpdateIds(us, c), c + UPDATE_TAG);
      OfForm(id, c + UPDATE_TAG) && forall i | 0 <= i < |us| :: us[i].id != id
  {
    var ids := UpdateIds(us, c);
    var id := NextId(ids, c + UPDATE_TAG);
    NextIdFresh(ids, c + UPDATE_TAG);
    forall i | 0 <= i < |us| ensures us[i].id != id {
      if us[i].classId == c {
        WhereMember(us, UpdateInClass(c), us[i]);
        var j :| 0 <= j < |Where(us, UpdateInClass(c))| && Where(us, UpdateInClass(c))[j] == us[i];
        assert ids[j] == us[i].id;
      } else if us[i].id == id {
        ClassesNeverCollide(id, c, us[i].classId, UPDATE_TAG);
      }
    }
  }

  lemma NewLogIdFresh(log: seq<LogRow>, c: string)
    requires forall i | 0 <= i < |log| :: OfForm(log[i].id, log[i].classId + LOG_TAG)
    ensures var id := NextId(LogIds(log, c), c + LOG_TAG);
      OfForm(id, c + LOG_TAG) && forall i | 0 <= i < |log| :: log[i].id != id
  {
    var ids := LogIds(log, c);
    var id := NextId(ids, c + LOG_TAG);
    NextIdFresh(ids, c + LOG_TAG);
    forall i | 0 <= i < |log| ensures log[i].id != id {
      if log[i].classId == c {
        WhereMember(log, LogInClass(c), log[i]);
        var j :| 0 <= j < |Where(log, LogInClass(c))| && Where(log, LogInClass(c))[j] == log[i];
        assert ids[j] == log[i].id;
      } else if log[i].id == id {
        ClassesNeverCollide(id, c, log[i].classId, LOG_TAG);
      }
    }
  }

  /** The hours in effect are a function of the approved baseline and the top of
      the week's stack: the flat query over live rows computes just that. */
  function ByStack(b: Option<BaselineRow>, stack: seq<Hours>, week: int): Resolved {
    if b.None? then Resolved(ZERO_HOURS, NoBaseline)
    else if stack != [] then Resolved(stack[|stack| - 1], Weekly)
    else FromBaseline(b.value, week)
  }

  lemma HoursFollowStack(bs: seq<BaselineRow>, us: seq<UpdateRow>, k: Key)
    requires Linked(us)
    ensures HoursInEffect(bs, us, k) == ByStack(ApprovedBaseline(bs, k.classId, k.studentId), Stack(us, k), k.week)
  {
    ApprovedIsApproved(bs, k.classId, k.studentId);
    LiveListingShowsTop(us, k);
  }

  lemma ApprovedIsApproved(bs: seq<BaselineRow>, c: string, s: string)
    ensures var b := ApprovedBaseline(bs, c, s); b.Some? ==> b.value in bs && ApprovedFor(c, s)(b.value)
  {
    var rows := Where(bs, ApprovedFor(c, s));
    if rows != [] {
      WhereMember(bs, ApprovedFor(c, s), rows[|rows| - 1]);
    }
  }

  /** Among a student's live rows, the first unreversed one of a week is the top
      of that week's pile. */
  lemma LiveListingShowsTop(us: seq<UpdateRow>, k: Key)
    requires Linked(us)
    ensures var live := Where(us, LiveFor(k.classId, k.studentId));
      var found := FirstIndex(live, AppliesTo(k.week));
      if Stack(us, k) == [] then found.None?
      else found.Some? && live[found.value] == us[Pile(us, k)[|Pile(us, k)| - 1]]
  {
    hide Where;
    hide Pile;
    hide FirstIndex;
    hide Linked;
    var live := Where(us, LiveFor(k.classId, k.studentId));
    var found := FirstIndex(live, AppliesTo(k.week));
    if found.Some? {
      ListedIsTop(us, k, found.value);
    }
    if Pile(us, k) != [] {
      var j := TopIsListed(us, k);
    }
  }

  lemma ListedIsTop(us: seq<UpdateRow>, k: Key, j: nat)
    requires Linked(us) && j < |Where(us, LiveFor(k.classId, k.studentId))|
    requires AppliesTo(k.week)(Where(us, LiveFor(k.classId, k.studentId))[j])
    ensures Pile(us, k) != [] && Where(us, LiveFor(k.classId, k.studentId))[j] == us[Pile(us, k)[|Pile(us, k)| - 1]]
  {
    hide Where;
    hide Pile;
    hide Linked;
    var p := LiveFor(k.classId, k.studentId);
    var x := Where(us, p)[j];
    WhereMember(us, p, x);
    var i :| 0 <= i < |us| && us[i] == x;
    LiveRowIsTop(us, k, i);
  }

  lemma TopIsListed(us: seq<UpdateRow>, k: Key) returns (j: nat)
    requires Linked(us) && Pile(us, k) != []
    ensures j < |Where(us, LiveFor(k.classId, k.studentId))|
    ensures AppliesTo(k.week)(Where(us, LiveFor(k.classId, k.studentId))[j])
  {
    hide Where;
    hide Pile;
    hide Linked;
    var p := LiveFor(k.classId, k.studentId);
    TopRowIsLive(us, k);
    var top := us[Pile(us, k)[|Pile(us, k)| - 1]];
    WhereMember(us, p, top);
    j :| 0 <= j < |Where(us, p)| && Where(us, p)[j] == top;
  }

  /* Baselines: what submitting and deciding do. */

  lemma SubmitStep(t: Tables, c: string, s: string, hours: HoursInput, at: Stamp, actor: Option<string>)
    requires Valid(t)
    ensures Valid(Submitted(t, c, s, hours, at, actor))
    ensures forall d, r :: ApprovedBaseline(Submitted(t, c, s, hours, at, actor).baselines, d, r) == ApprovedBaseline(t.baselines, d, r)
  {
    hide NextId;
    hide OfForm;
    hide Where;
    var t' := Submitted(t, c, s, hours, at, actor);
    NewBaselineIdFresh(t.baselines, c);
    var row := t'.baselines[|t.baselines|];
    NewLogIdFresh(t.log, c);
    forall d, r ensures ApprovedBaseline(t'.baselines, d, r) == ApprovedBaseline(t.baselines, d, r) {
      WhereAppend(t.baselines, row, ApprovedFor(d, r));
    }
  }

  lemma RejectStep(bs: seq<BaselineRow>, i: nat, row: BaselineRow)
    requires GoodBaselines(bs) && i < |bs| && bs[i].status == Pending
    requires row.id == bs[i].id && row.classId == bs[i].classId && row.status == Rejected
    ensures GoodBaselines(bs[i := row])
    ensures forall d, r :: ApprovedBaseline(bs[i := row], d, r) == ApprovedBaseline(bs, d, r)
  {
    forall d, r ensures ApprovedBaseline(bs[i := row], d, r) == ApprovedBaseline(bs, d, r) {
      WhereSame(bs, bs[i := row], ApprovedFor(d, r));
    }
  }

  /** Approving retires what the student had approved and touches nobody else. */
  lemma ApproveStep(bs: seq<BaselineRow>, i: nat, row: BaselineRow)
    requires GoodBaselines(bs) && i < |bs| && bs[i].status == Pending
    requires row.id == bs[i].id && row.classId == bs[i].classId && row.studentId == bs[i].studentId
    requires row.status == Approved
    ensures var bs' := RetireApproved(bs, row.classId, row.studentId)[i := row];
      && GoodBaselines(bs')
      && ApprovedBaseline(bs', row.classId, row.studentId) == Some(row)
      && forall d, r | d != row.classId || r != row.studentId :: ApprovedBaseline(bs', d, r) == ApprovedBaseline(bs, d, r)
  {
    hide Where;
    hide OfForm;
    var bs' := RetireApproved(bs, row.classId, row.studentId)[i := row];
    WhereOnly(bs', ApprovedFor(row.classId, row.studentId), i);
    forall d, r | d != row.classId || r != row.studentId
      ensures ApprovedBaseline(bs', d, r) == ApprovedBaseline(bs, d, r)
    {
      WhereSame(bs, bs', ApprovedFor(d, r));
    }
  }

  /** The baseline row an accepted approval makes the student's approved one. */
  function Approval(t: Tables, op: Op): Option<BaselineRow> {
    if op.Decide? && op.approve && Step(t, op).1 == Accepted then
      var i := FirstIndex(t.baselines, HasBaselineId(op.classId, op.baselineId)).value;
      Some(DecidedRow(t.baselines[i], true, op.effective, op.who, op.at))
    else None
  }

  /** +1 if the operation is an accepted save on the student-week, -1 if it is an
      accepted reversal of one of its rows. */
  function Delta(t: Tables, op: Op, k: Key): (d: int)
    ensures -1 <= d <= 1
  {
    match op
    case SetWeekly(c, s, _, week, _, _, _) => if Key(c, s, week) == k then 1 else 0
    case ReverseWeekly(c, id, _, _) =>
      (match FirstIndex(t.updates, HasUpdateId(c, id))
       case None => 0
       case Some(i) => if Step(t, op).1 == Accepted && KeyOf(t.updates[i]) == k then -1 else 0)
    case _ => 0
  }

  lemma DecideStep(t: Tables, op: Op)
    requires Valid(t) && op.Decide? && Step(t, op).1 == Accepted
    ensures Valid(Step(t, op).0)
    ensures Step(t, op).0.updates == t.updates
    ensures forall c, s ::
      ApprovedBaseline(Step(t, op).0.baselines, c, s)
      == if Approval(t, op).Some? && Approval(t, op).value.classId == c && Approval(t, op).value.studentId == s
         then Approval(t, op) else ApprovedBaseline(t.baselines, c, s)
  {
    var i := FirstIndex(t.baselines, HasBaselineId(op.classId, op.baselineId)).value;
    var row := DecidedRow(t.baselines[i], op.approve, op.effective, op.who, op.at);
    NewLogIdFresh(t.log, op.classId);
    if op.approve {
      ApproveStep(t.baselines, i, row);
    } else {
      RejectStep(t.baselines, i, row);
    }
  }

  /* Weekly updates: saves push, accepted reversals pop. */

  lemma SaveStep(t: Tables, op: Op)
    requires Valid(t) && op.SetWeekly?
    ensures Valid(Step(t, op).0)
    ensures Step(t, op).0.baselines == t.baselines
    ensures forall k :: Stack(Step(t, op).0.updates, k)
                        == Stack(t.updates, k) + (if Delta(t, op, k) == 1 then [HoursColumns(op.hours)] else [])
  {
    hide Where;
    hide FirstIndex;
    hide Stack;
    hide Linked;
    hide NextId;
    var row := NewUpdate(t.updates, op.classId, op.studentId, op.weekId, op.week, op.hours, op.at);
    NewUpdateIdFresh(t.updates, op.classId);
    NewLogIdFresh(t.log, op.classId);
    PushStep(t.updates, row);
  }

  lemma ReverseStep(t: Tables, op: Op)
    requires Valid(t) && op.ReverseWeekly? && Step(t, op).1 == Accepted
    ensures Valid(Step(t, op).0)
    ensures Step(t, op).0.baselines == t.baselines
    ensures forall k :: if Delta(t, op, k) == -1
      then Stack(t.updates, k) != [] && Stack(Step(t, op).0.updates, k) == Stack(t.updates, k)[..|Stack(t.updates, k)| - 1]
      else Stack(Step(t, op).0.updates, k) == Stack(t.updates, k)
  {
    hide Where;
    hide Stack;
    hide NextId;
    var i := FirstIndex(t.updates, HasUpdateId(op.classId, op.updateId)).value;
    NewLogIdFresh(t.log, op.classId);
    PopStep(t.updates, i, op.who, op.at);
  }

  /** Every operation keeps the invariant; a refused one changes nothing and an
      accepted one appends exactly one log entry. */
  lemma StepKeeps(t: Tables, op: Op)
    requires Valid(t)
    ensures Valid(Step(t, op).0)
    ensures Step(t, op).1 != Accepted ==> Step(t, op).0 == t
    ensures Step(t, op).1 == Accepted ==>
      && |Step(t, op).0.log| == |t.log| + 1
      && Step(t, op).0.log[..|t.log|] == t.log
      && Step(t, op).0.log[|t.log|].classId == op.classId
  {
    hide Valid;
    hide HoursInEffect;
    hide Popped;
    hide Pushed;
    hide RetireApproved;
    hide DecidedRow;
    hide ApprovedBaseline;
    match op
    case SubmitBaseline(c, s, h, at, actor) => SubmitStep(t, c, s, h, at, actor);
    case SetWeekly(_, _, _, _, _, _, _) => SaveStep(t, op);
    case Decide(_, _, _, _, _, _) => if Step(t, op).1 == Accepted { DecideStep(t, op); }
    case ReverseWeekly(_, _, _, _) => if Step(t, op).1 == Accepted { ReverseStep(t, op); }
  }

  /** The refinement: what one operation does to a student-week's undo stack. */
  lemma StepOnStack(t: Tables, op: Op, k: Key)
    requires Valid(t)
    ensures var before, after := Stack(t.updates, k), Stack(Step(t, op).0.updates, k);
      match Delta(t, op, k)
      case 1 => op.SetWeekly? && after == before + [HoursColumns(op.hours)]
      case -1 => op.ReverseWeekly? && before != [] && after == before[..|before| - 1]
      case _ => after == before
  {
    match op
    case SubmitBaseline(_, _, _, _, _) =>
    case SetWeekly(_, _, _, _, _, _, _) => SaveStep(t, op);
    case Decide(_, _, _, _, _, _) =>
    case ReverseWeekly(_, _, _, _) => if Step(t, op).1 == Accepted { ReverseStep(t, op); }
  }

  /** ... and to a student's approved baseline. */
  lemma StepOnApproved(t: Tables, op: Op, c: string, s: string)
    requires Valid(t)
    ensures ApprovedBaseline(Step(t, op).0.baselines, c, s)
            == if Approval(t, op).Some? && Approval(t, op).value.classId == c && Approval(t, op).value.studentId == s
               then Approval(t, op) else ApprovedBaseline(t.baselines, c, s)
  {
    hide Valid;
    hide HoursInEffect;
    hide Popped;
    hide Pushed;
    hide NextId;
    hide ApprovedBaseline;
    hide RetireApproved;
    match op
    case SubmitBaseline(d, r, h, at, actor) => SubmitStep(t, d, r, h, at, actor);
    case SetWeekly(_, _, _, _, _, _, _) => SaveStep(t, op);
    case Decide(_, _, _, _, _, _) => if Step(t, op).1 == Accepted { DecideStep(t, op); }
    case ReverseWeekly(_, _, _, _) => if Step(t, op).1 == Accepted { ReverseStep(t, op); }
  }

  lemma {:induction false} RunKeeps(t: Tables, ops: seq<Op>)
    requires Valid(t)
    ensures Valid(Run(t, ops))
    decreases |ops|
  {
    if ops != [] {
      StepKeeps(t, ops[0]);
      RunKeeps(Step(t, ops[0]).0, ops[1..]);
    }
  }

  /** The row with this class and id is the top of its student-week's stack. */
  ghost predicate NamesTop(us: seq<UpdateRow>, c: string, id: string, k: Key) {
    && k.classId == c && Pile(us, k) != []
    && us[Pile(us, k)[|Pile(us, k)| - 1]].id == id
  }

  lemma IdFindsRow(us: seq<UpdateRow>, i: nat)
    requires i < |us| && DistinctIds(us)
    ensures FirstIndex(us, HasUpdateId(us[i].classId, us[i].id)) == Some(i)
  {
    FirstIndexOnly(us, HasUpdateId(us[i].classId, us[i].id), i);
  }

  lemma TopIsFound(us: seq<UpdateRow>, c: string, id: string, k: Key)
    requires Linked(us) && NamesTop(us, c, id, k)
    ensures var found := FirstIndex(us, HasUpdateId(c, id));
      found.Some? && us[found.value].reversedAt.None? && us[found.value].supersededBy.None?
  {
    TopRowIsLive(us, k);
    IdFindsRow(us, Pile(us, k)[|Pile(us, k)| - 1]);
  }

  /** A reversal is accepted exactly when it names the top of some undo stack. */
  lemma ReversalAcceptedIffTop(t: Tables, op: Op)
    requires Valid(t) && op.ReverseWeekly?
    ensures Step(t, op).1 == Accepted <==> exists k :: NamesTop(t.updates, op.classId, op.updateId, k)
  {
    if Step(t, op).1 == Accepted {
      var i := FirstIndex(t.updates, HasUpdateId(op.classId, op.updateId)).value;
      LiveRowIsTop(t.updates, KeyOf(t.updates[i]), i);
      assert NamesTop(t.updates, op.classId, op.updateId, KeyOf(t.updates[i]));
    }
    if k :| NamesTop(t.updates, op.classId, op.updateId, k) {
      TopIsFound(t.updates, op.classId, op.updateId, k);
    }
  }
}
