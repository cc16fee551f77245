/** What approvals and reversals do to hours, where that departs from the
    documentation, how rows age, and that all readers pick the same baseline. */
module LedgerLaws {
  import opened Wrappers
  import opened Sequences
  import opened Identifiers
  import opened Commitments
  import opened Ledger
  import opened UndoStacks
  import opened LedgerInvariant
  import opened LedgerRuns

  /* Approving a baseline. */

  function WeekOf(b: BaselineRow, week: int): Key { Key(b.classId, b.studentId, week) }

  /** After an approval every week of the student resolves through the new baseline
      and its own weekly updates; the old baseline no longer counts for any week. */
  lemma ApprovalEffect(t: Tables, op: Op, week: int)
    requires Valid(t) && Approval(t, op).Some?
    ensures var b := Approval(t, op).value;
      && HoursAt(Step(t, op).0, WeekOf(b, week)) == ByStack(Some(b), Stack(t.updates, WeekOf(b, week)), week)
      && EffectiveWeek(b) == (if op.effective == None || op.effective == Some(0) then 1 else op.effective.value)
  {
    var b := Approval(t, op).value;
    StepKeeps(t, op);
    DecideStep(t, op);
    HoursFollowStack(Step(t, op).0.baselines, Step(t, op).0.updates, WeekOf(b, week));
  }

  /** The documentation keeps the factors of the weeks before the new effective
      week. The code does so exactly under this condition, which looks only at the
      tables before the approval. */
  ghost predicate EarlierWeekSafe(t: Tables, k: Key) {
    var prior, stack := ApprovedBaseline(t.baselines, k.classId, k.studentId), Stack(t.updates, k);
    if prior.Some? then stack != [] || k.week < EffectiveWeek(prior.value) || prior.value.hours == ZERO_HOURS
    else stack == [] || stack[|stack| - 1] == ZERO_HOURS
  }

  lemma ApprovalKeepsEarlierWeekIff(t: Tables, op: Op, week: int)
    requires Valid(t) && Approval(t, op).Some? && week < EffectiveWeek(Approval(t, op).value)
    ensures var k := WeekOf(Approval(t, op).value, week);
      HoursAt(Step(t, op).0, k).hours == HoursAt(t, k).hours <==> EarlierWeekSafe(t, k)
  {
    var k := WeekOf(Approval(t, op).value, week);
    ApprovalEffect(t, op, week);
    HoursFollowStack(t.baselines, t.updates, k);
  }

  function SampleBaseline(id: string, status: Status, work: real, effective: Option<int>): BaselineRow {
    BaselineRow(id, "c1", "s1", Hours(work, 0.0, 0.0), status, effective, "t0", None, None)
  }

  /** A student approved for ten hours from week 1 gets a replacement approved from
      week 9: week 3 drops from ten hours to none. */
  lemma ApprovalRewritesEarlierWeek()
    ensures var t := Tables([SampleBaseline("c1-b1", Approved, 10.0, Some(1)), SampleBaseline("c1-b2", Pending, 20.0, None)], [], []);
      var op := Decide("c1", "c1-b2", true, Some(9), "i1", "t1");
      var k := Key("c1", "s1", 3);
      && Valid(t)
      && HoursAt(t, k) == Resolved(Hours(10.0, 0.0, 0.0), Baseline)
      && HoursAt(Step(t, op).0, k) == Resolved(ZERO_HOURS, BeforeEffective)
  {
    var b1, b2 := SampleBaseline("c1-b1", Approved, 10.0, Some(1)), SampleBaseline("c1-b2", Pending, 20.0, None);
    var t := Tables([b1, b2], [], []);
    var op := Decide("c1", "c1-b2", true, Some(9), "i1", "t1");
    SampleIsValid(b1, b2);
    assert ApprovedBaseline(t.baselines, "c1", "s1") == Some(b1) by {
      WhereOnly(t.baselines, ApprovedFor("c1", "s1"), 0);
    }
    assert FirstIndex(t.baselines, HasBaselineId("c1", "c1-b2")) == Some(1) by {
      assert b1.id[4] != b2.id[4];
      FirstIndexOnly(t.baselines, HasBaselineId("c1", "c1-b2"), 1);
    }
    hide Valid;
    hide NextId;
    HoursFollowStack(t.baselines, t.updates, Key("c1", "s1", 3));
    ApprovalEffect(t, op, 3);
  }

  lemma SampleIsValid(b1: BaselineRow, b2: BaselineRow)
    requires b1.id == "c1-b1" && b2.id == "c1-b2" && b1.classId == b2.classId == "c1" && b2.status == Pending
    ensures Valid(Tables([b1, b2], [], []))
  {
    assert "c1" + BASELINE_TAG == "c1-b";
    assert b1.id[..4] == "c1-b" && b2.id[..4] == "c1-b" && b1.id[4] != b2.id[4];
  }

  /* Reversing a weekly update. */

  /** A reversal shows the value it had replaced; the week is back on the baseline
      (or on nothing) exactly when there was no earlier unreversed value. */
  lemma ReversalShowsReplacedValue(t: Tables, op: Op, k: Key)
    requires Valid(t) && op.ReverseWeekly? && Delta(t, op, k) == -1
    ensures var b, stack := ApprovedBaseline(t.baselines, k.classId, k.studentId), Stack(t.updates, k);
      && stack != []
      && HoursAt(Step(t, op).0, k) == ByStack(b, stack[..|stack| - 1], k.week)
      && (b.Some? ==> (HoursAt(Step(t, op).0, k) == FromBaseline(b.value, k.week) <==> |stack| == 1))
  {
    ReverseStep(t, op);
    HoursFollowStack(Step(t, op).0.baselines, Step(t, op).0.updates, k);
  }

  function SampleUpdate(id: string, work: real, supersededBy: Option<string>): UpdateRow {
    UpdateRow(id, "c1", "s1", "w3", 3, Hours(work, 0.0, 0.0), "t0", None, None, supersededBy)
  }

  function SampleUpdates(): seq<UpdateRow> {
    [SampleUpdate("c1-u1", 5.0, Some("c1-u2")), SampleUpdate("c1-u2", 7.0, None)]
  }

  lemma SamplePile(k: Key)
    ensures Pile(SampleUpdates(), k) == if k == Key("c1", "s1", 3) then [0, 1] else []
  {
    var us := SampleUpdates();
    PileAppend([], us[0], k);
    PileAppend([us[0]], us[1], k);
    assert [] + [us[0]] == [us[0]] && [us[0]] + [us[1]] == us;
  }

  lemma SampleUpdatesGood()
    ensures GoodUpdates(SampleUpdates())
  {
    hide Pile;
    var us := SampleUpdates();
    forall k ensures Chained(us, k) {
      SamplePile(k);
    }
  }

  /** A student approved for ten hours sets week 3 to five and then to seven hours.
      Reversing the second edit gives five hours, not the baseline's ten. */
  lemma ReversalCanMissBaseline()
    ensures var t := Tables([SampleBaseline("c1-b1", Approved, 10.0, Some(1))], SampleUpdates(), []);
      var op := ReverseWeekly("c1", "c1-u2", "i1", "t1");
      var k := Key("c1", "s1", 3);
      && Valid(t) && Step(t, op).1 == Accepted
      && HoursAt(t, k) == Resolved(Hours(7.0, 0.0, 0.0), Weekly)
      && HoursAt(Step(t, op).0, k) == Resolved(Hours(5.0, 0.0, 0.0), Weekly)
  {
    hide Valid;
    hide Stack;
    hide Step;
    hide Delta;
    hide Linked;
    var b, us := SampleBaseline("c1-b1", Approved, 10.0, Some(1)), SampleUpdates();
    var t := Tables([b], us, []);
    var op, k := ReverseWeekly("c1", "c1-u2", "i1", "t1"), Key("c1", "s1", 3);
    SampleReversal(b);
    SampleStack();
    WhereOnly([b], ApprovedFor("c1", "s1"), 0);
    HoursFollowStack(t.baselines, us, k);
    ReversalShowsReplacedValue(t, op, k);
  }

  lemma SampleStack()
    ensures Linked(SampleUpdates())
    ensures Stack(SampleUpdates(), Key("c1", "s1", 3)) == [Hours(5.0, 0.0, 0.0), Hours(7.0, 0.0, 0.0)]
  {
    hide Pile;
    hide Linked;
    SampleUpdatesGood();
    SamplePile(Key("c1", "s1", 3));
  }

  lemma SampleReversal(b: BaselineRow)
    requires b == SampleBaseline("c1-b1", Approved, 10.0, Some(1))
    ensures var t, op := Tables([b], SampleUpdates(), []), ReverseWeekly("c1", "c1-u2", "i1", "t1");
      Valid(t) && Step(t, op).1 == Accepted && Delta(t, op, Key("c1", "s1", 3)) == -1
  {
    hide Popped;
    hide NextId;
    hide HoursInEffect;
    hide Linked;
    SampleUpdatesGood();
    FirstIndexOnly(SampleUpdates(), HasUpdateId("c1", "c1-u2"), 1);
  }

  /** Without an approved baseline weekly updates are stored but count for nothing. */
  lemma NothingCountsBeforeApproval(t: Tables, k: Key)
    requires Valid(t)
    ensures ApprovedBaseline(t.baselines, k.classId, k.studentId).None? <==> HoursAt(t, k).source == NoBaseline
    ensures HoursAt(t, k).source == NoBaseline ==> HoursAt(t, k).hours == ZERO_HOURS
    ensures HoursAt(t, k).source == Weekly <==>
      ApprovedBaseline(t.baselines, k.classId, k.studentId).Some? && Stack(t.updates, k) != []
  {
    HoursFollowStack(t.baselines, t.updates, k);
  }

  /* How rows age. */

  /** Row b' is row b some operations later. */
  ghost predicate BaselineLater(b: BaselineRow, b': BaselineRow) {
    && b'.id == b.id && b'.classId == b.classId && b'.studentId == b.studentId
    && b'.hours == b.hours && b'.submittedAt == b.submittedAt
    && match b.status
       case Pending => b'.status == Pending ==> b' == b
       case Approved => b' == b || b' == b.(status := Superseded)
       case _ => b' == b
  }

  ghost predicate UpdateLater(u: UpdateRow, u': UpdateRow) {
    && u'.id == u.id && KeyOf(u') == KeyOf(u) && u'.weekId == u.weekId
    && u'.hours == u.hours && u'.enteredAt == u.enteredAt
    && (u.reversedAt.Some? ==> u' == u)
  }

  ghost predicate Later(t: Tables, t': Tables) {
    && |t.baselines| <= |t'.baselines| && (forall i | 0 <= i < |t.baselines| :: BaselineLater(t.baselines[i], t'.baselines[i]))
    && |t.updates| <= |t'.updates| && (forall i | 0 <= i < |t.updates| :: UpdateLater(t.updates[i], t'.updates[i]))
    && t.log <= t'.log
  }

  lemma PushAges(us: seq<UpdateRow>, row: UpdateRow)
    ensures |us| <= |Pushed(us, row)| && forall i | 0 <= i < |us| :: UpdateLater(us[i], Pushed(us, row)[i])
  {
  }

  lemma PopAges(us: seq<UpdateRow>, i: nat, who: string, at: Stamp)
    requires Linked(us) && i < |us| && us[i].reversedAt.None? && us[i].supersededBy.None?
    ensures forall j | 0 <= j < |us| :: UpdateLater(us[j], Popped(us, i, who, at)[j])
  {
  }

  /** The status changes one operation can make. */
  ghost predicate OneMove(b: BaselineRow, b': BaselineRow) {
    b' == b || (match b.status
                case Pending => b'.status in {Approved, Rejected}
                case Approved => b'.status == Superseded
                case _ => false)
  }

  lemma DecideAges(t: Tables, op: Op)
    requires op.Decide?
    ensures |Step(t, op).0.baselines| == |t.baselines|
    ensures forall i | 0 <= i < |t.baselines| ::
      BaselineLater(t.baselines[i], Step(t, op).0.baselines[i]) && OneMove(t.baselines[i], Step(t, op).0.baselines[i])
  {
    hide ApprovedBaseline;
    hide NextId;
  }

  ghost predicate OneMoveEach(bs: seq<BaselineRow>, bs': seq<BaselineRow>) {
    |bs| <= |bs'| && forall i | 0 <= i < |bs| :: OneMove(bs[i], bs'[i])
  }

  lemma SubmitAges(t: Tables, op: Op)
    requires op.SubmitBaseline?
    ensures Later(t, Step(t, op).0) && OneMoveEach(t.baselines, Step(t, op).0.baselines)
  {
    hide NextId;
    hide Where;
  }

  lemma SaveAges(t: Tables, op: Op)
    requires op.SetWeekly?
    ensures Later(t, Step(t, op).0) && OneMoveEach(t.baselines, Step(t, op).0.baselines)
  {
    hide HoursInEffect;
    hide NextId;
    hide Pushed;
    hide UpdateLater;
    PushAges(t.updates, NewUpdate(t.updates, op.classId, op.studentId, op.weekId, op.week, op.hours, op.at));
  }

  lemma ReverseAges(t: Tables, op: Op)
    requires op.ReverseWeekly? && Linked(t.updates) && Step(t, op).1 == Accepted
    ensures Later(t, Step(t, op).0) && OneMoveEach(t.baselines, Step(t, op).0.baselines)
  {
    hide HoursInEffect;
    hide NextId;
    hide Popped;
    hide UpdateLater;
    hide Linked;
    PopAges(t.updates, FirstIndex(t.updates, HasUpdateId(op.classId, op.updateId)).value, op.who, op.at);
  }

  lemma DecideAgesAll(t: Tables, op: Op)
    requires op.Decide?
    ensures Later(t, Step(t, op).0) && OneMoveEach(t.baselines, Step(t, op).0.baselines)
  {
    hide NextId;
    hide DecidedRow;
    hide RetireApproved;
    hide ApprovedBaseline;
    hide BaselineLater;
    hide OneMove;
    DecideAges(t, op);
  }

  lemma StayingAges(t: Tables)
    ensures Later(t, t) && OneMoveEach(t.baselines, t.baselines)
  {
  }

  /** One operation moves at most these: pending to approved or rejected (the row
      decided), approved to superseded; it deletes nothing. */
  lemma StepAges(t: Tables, op: Op)
    requires Valid(t)
    ensures Later(t, Step(t, op).0)
    ensures OneMoveEach(t.baselines, Step(t, op).0.baselines)
  {
    hide Step;
    hide Later;
    hide OneMoveEach;
    hide GoodBaselines;
    hide GoodLog;
    hide Linked;
    match op
    case SubmitBaseline(_, _, _, _, _) => SubmitAges(t, op);
    case SetWeekly(_, _, _, _, _, _, _) => SaveAges(t, op);
    case Decide(_, _, _, _, _, _) => DecideAgesAll(t, op);
    case ReverseWeekly(_, _, _, _) =>
      if Step(t, op).1 == Accepted {
        ReverseAges(t, op);
      } else {
        StepKeeps(t, op);
        StayingAges(t);
      }
  }

  lemma LaterTransitive(t: Tables, t1: Tables, t2: Tables)
    requires Later(t, t1) && Later(t1, t2)
    ensures Later(t, t2)
  {
    forall i | 0 <= i < |t.baselines| ensures BaselineLater(t.baselines[i], t2.baselines[i]) {
      assert BaselineLater(t.baselines[i], t1.baselines[i]) && BaselineLater(t1.baselines[i], t2.baselines[i]);
    }
    forall i | 0 <= i < |t.updates| ensures UpdateLater(t.updates[i], t2.updates[i]) {
      assert UpdateLater(t.updates[i], t1.updates[i]) && UpdateLater(t1.updates[i], t2.updates[i]);
    }
  }

  /** Over a whole run no row disappears and none moves any other way. */
  lemma {:induction false} RunAges(t: Tables, ops: seq<Op>)
    requires Valid(t)
    ensures Later(t, Run(t, ops)) && Valid(Run(t, ops))
    decreases |ops|
  {
    hide Step;
    hide Valid;
    if ops != [] {
      StepKeeps(t, ops[0]);
      StepAges(t, ops[0]);
      RunAges(Step(t, ops[0]).0, ops[1..]);
      LaterTransitive(t, Step(t, ops[0]).0, Run(t, ops));
    }
  }

  /* Every reader picks the same baseline and the same hours. */

  function ListBaselines(t: Tables, c: string): seq<BaselineRow> { Where(t.baselines, InClass(c)) }

  function ListUpdates(t: Tables, c: string): seq<UpdateRow> { Where(t.updates, LiveInClass(c)) }

  function IsApproved(): BaselineRow -> bool { (b: BaselineRow) => b.status == Approved }

  function ApprovedOfStudent(s: string): BaselineRow -> bool {
    (b: BaselineRow) => b.studentId == s && b.status == Approved
  }

  function OfStudent(s: string): UpdateRow -> bool { (u: UpdateRow) => u.studentId == s }

  datatype StudentCommitments = StudentCommitments(
    baseline: Option<BaselineRow>, active: Option<BaselineRow>, weekly: seq<UpdateRow>)

  function GetCommitments(t: Tables, c: string, s: string): StudentCommitments {
    var rows := Where(t.baselines, NotSupersededFor(c, s));
    StudentCommitments(LastOf(rows), LastOf(Where(rows, IsApproved())), Where(t.updates, LiveFor(c, s)))
  }

  /** The scoring service's choice, made from a class listing. */
  function ActiveBaseline(listing: seq<BaselineRow>, s: string): Option<BaselineRow> {
    LastOf(Where(listing, ApprovedOfStudent(s)))
  }

  lemma ReadersAgree(t: Tables, c: string, s: string)
    ensures GetCommitments(t, c, s).active == ApprovedBaseline(t.baselines, c, s)
    ensures ActiveBaseline(ListBaselines(t, c), s) == ApprovedBaseline(t.baselines, c, s)
    ensures Where(ListUpdates(t, c), OfStudent(s)) == GetCommitments(t, c, s).weekly
  {
    WhereWhere(t.baselines, NotSupersededFor(c, s), IsApproved(), ApprovedFor(c, s));
    WhereWhere(t.baselines, InClass(c), ApprovedOfStudent(s), ApprovedFor(c, s));
    WhereWhere(t.updates, LiveInClass(c), OfStudent(s), LiveFor(c, s));
  }

  /** What the ranking reads off the two listings is what the ledger logs. */
  lemma ListingsGiveHoursInEffect(t: Tables, k: Key)
    ensures ResolveHours(ActiveBaseline(ListBaselines(t, k.classId), k.studentId),
                         Where(ListUpdates(t, k.classId), OfStudent(k.studentId)), k.week) == HoursAt(t, k)
  {
    ReadersAgree(t, k.classId, k.studentId);
  }

  lemma PushOtherClass(us: seq<UpdateRow>, row: UpdateRow, d: string)
    requires d != row.classId
    ensures Where(Pushed(us, row), LiveInClass(d)) == Where(us, LiveInClass(d))
  {
    var vs := Pushed(us, row);
    WhereSame(us, vs[..|us|], LiveInClass(d));
    assert vs == vs[..|us|] + [row];
    WhereAppend(vs[..|us|], row, LiveInClass(d));
  }

  lemma PopOtherClass(us: seq<UpdateRow>, i: nat, who: string, at: Stamp, d: string)
    requires i < |us| && d != us[i].classId
    ensures Where(Popped(us, i, who, at), LiveInClass(d)) == Where(us, LiveInClass(d))
  {
    hide FirstIndex;
    hide Where;
    hide MarkReversed;
    var us1 := MarkReversed(us, i, who, at);
    MarkOtherClass(us, i, who, at, d);
    var j := FirstIndex(us1, PointsAt(us[i].classId, us[i].id));
    if j.Some? {
      WhereSame(us1, us1[j.value := us1[j.value].(supersededBy := None)], LiveInClass(d));
    }
  }

  lemma MarkOtherClass(us: seq<UpdateRow>, i: nat, who: string, at: Stamp, d: string)
    requires i < |us| && d != us[i].classId
    ensures Where(MarkReversed(us, i, who, at), LiveInClass(d)) == Where(us, LiveInClass(d))
  {
    hide Where;
    WhereSame(us, MarkReversed(us, i, who, at), LiveInClass(d));
  }

  lemma DecideOtherClass(t: Tables, op: Op, d: string)
    requires op.Decide? && d != op.classId
    ensures ListBaselines(Step(t, op).0, d) == ListBaselines(t, d)
  {
    hide ApprovedBaseline;
    hide NextId;
    WhereSame(t.baselines, Step(t, op).0.baselines, InClass(d));
  }

  /** An operation of one class leaves every other class's listings alone. */
  lemma OtherClassesUntouched(t: Tables, op: Op, d: string)
    requires d != op.classId
    ensures ListBaselines(Step(t, op).0, d) == ListBaselines(t, d)
    ensures ListUpdates(Step(t, op).0, d) == ListUpdates(t, d)
  {
    hide HoursInEffect;
    hide NextId;
    hide Popped;
    hide Pushed;
    match op
    case SubmitBaseline(_, _, _, _, _) =>
      WhereAppend(t.baselines, Step(t, op).0.baselines[|t.baselines|], InClass(d));
    case SetWeekly(c, s, weekId, week, hours, at, _) =>
      PushOtherClass(t.updates, NewUpdate(t.updates, c, s, weekId, week, hours, at), d);
    case Decide(_, _, _, _, _, _) =>
      DecideOtherClass(t, op, d);
    case ReverseWeekly(c, id, who, at) =>
      if Step(t, op).1 == Accepted {
        PopOtherClass(t.updates, FirstIndex(t.updates, HasUpdateId(c, id)).value, who, at, d);
      }
  }
}
