/** The commitments ledger as a state machine: the tables and the four
    operations on them, each one transaction. */
module Ledger {
  import opened Wrappers
  import opened Sequences
  import opened Identifiers
  import opened Commitments

  datatype Action = BaselineSubmit | BaselineApprove | BaselineReject | WeeklySet | WeeklyReverse

  /** Logged hours; an approval's entry also carries the effective week. */
  datatype LogValues = LogValues(hours: Hours, effective: Option<Option<int>>)

  datatype LogRow = LogRow(
    id: string, classId: string, actor: string, action: Action, studentId: string, weekId: Option<string>,
    oldValues: Option<LogValues>, newValues: Option<LogValues>, at: Stamp)

  datatype Tables = Tables(baselines: seq<BaselineRow>, updates: seq<UpdateRow>, log: seq<LogRow>)

  datatype Op =
    | SubmitBaseline(classId: string, studentId: string, hours: HoursInput, at: Stamp, actor: Option<string>)
    | SetWeekly(classId: string, studentId: string, weekId: string, week: int, hours: HoursInput, at: Stamp,
                actor: Option<string>)
    | Decide(classId: string, baselineId: string, approve: bool, effective: Option<int>, who: string, at: Stamp)
    | ReverseWeekly(classId: string, updateId: string, who: string, at: Stamp)

  datatype Outcome = Accepted | NoSuchRow | AlreadyDecided | AlreadyReversed | ReplacedByLaterEdit

  const BASELINE_TAG := "-b"
  const UPDATE_TAG := "-u"
  const LOG_TAG := "-log"

  function BaselineIds(bs: seq<BaselineRow>, c: string): seq<string> {
    var rows := Where(bs, InClass(c));
    seq(|rows|, i requires 0 <= i < |rows| => rows[i].id)
  }

  function UpdateInClass(c: string): UpdateRow -> bool { (u: UpdateRow) => u.classId == c }

  function UpdateIds(us: seq<UpdateRow>, c: string): seq<string> {
    var rows := Where(us, UpdateInClass(c));
    seq(|rows|, i requires 0 <= i < |rows| => rows[i].id)
  }

  function LogInClass(c: string): LogRow -> bool { (e: LogRow) => e.classId == c }

  function LogIds(log: seq<LogRow>, c: string): seq<string> {
    var rows := Where(log, LogInClass(c));
    seq(|rows|, i requires 0 <= i < |rows| => rows[i].id)
  }

  function OrElse(actor: Option<string>, studentId: string): string {
    match actor
    case None => studentId
    case Some(a) => if a == "" then studentId else a
  }

  function Plain(h: Hours): LogValues { LogValues(h, None) }

  function Logged(log: seq<LogRow>, c: string, actor: string, action: Action, s: string, weekId: Option<string>,
                  oldValues: Option<LogValues>, newValues: Option<LogValues>, at: Stamp): seq<LogRow> {
    log + [LogRow(NextId(LogIds(log, c), c + LOG_TAG), c, actor, action, s, weekId, oldValues, newValues, at)]
  }

  function Submitted(t: Tables, c: string, s: string, hours: HoursInput, at: Stamp, actor: Option<string>): Tables {
    var previous := LastOf(Where(t.baselines, NotSupersededFor(c, s)));
    var row := BaselineRow(NextId(BaselineIds(t.baselines, c), c + BASELINE_TAG), c, s, HoursColumns(hours),
                           Pending, None, at, None, None);
    t.(baselines := t.baselines + [row],
       log := Logged(t.log, c, OrElse(actor, s), BaselineSubmit, s, None,
                     if previous.Some? then Some(Plain(previous.value.hours)) else None,
                     Some(Plain(row.hours)), at))
  }

  function NewUpdate(us: seq<UpdateRow>, c: string, s: string, weekId: string, week: int, hours: HoursInput,
                     at: Stamp): UpdateRow {
    UpdateRow(NextId(UpdateIds(us, c), c + UPDATE_TAG), c, s, weekId, week, HoursColumns(hours), at, None, None, None)
  }

  /** The live update of the week, if any, is pointed at the new row. */
  function Pushed(us: seq<UpdateRow>, row: UpdateRow): seq<UpdateRow> {
    var current := FirstIndex(us, LiveWeekly(KeyOf(row)));
    (if current.Some? then us[current.value := us[current.value].(supersededBy := Some(row.id))] else us) + [row]
  }

  function WeeklySaved(t: Tables, c: string, s: string, weekId: string, week: int, hours: HoursInput, at: Stamp,
                       actor: Option<string>): Tables {
    var before := HoursInEffect(t.baselines, t.updates, Key(c, s, week));
    var row := NewUpdate(t.updates, c, s, weekId, week, hours, at);
    var applies := before.source == Baseline || before.source == Weekly;
    t.(updates := Pushed(t.updates, row),
       log := Logged(t.log, c, OrElse(actor, s), WeeklySet, s, Some(weekId),
                     if applies then Some(Plain(before.hours)) else None, Some(Plain(row.hours)), at))
  }

  function HasBaselineId(c: string, id: string): BaselineRow -> bool {
    (b: BaselineRow) => b.classId == c && b.id == id
  }

  function Retired(b: BaselineRow, c: string, s: string): BaselineRow {
    if ApprovedFor(c, s)(b) then b.(status := Superseded) else b
  }

  /** Every approved baseline of the student becomes superseded. */
  function RetireApproved(bs: seq<BaselineRow>, c: string, s: string): (r: seq<BaselineRow>)
    ensures |r| == |bs|
  {
    seq(|bs|, i requires 0 <= i < |bs| => Retired(bs[i], c, s))
  }

  function DecidedRow(b: BaselineRow, approve: bool, effective: Option<int>, who: string, at: Stamp): BaselineRow {
    b.(status := if approve then Approved else Rejected,
       effectiveFrom := if approve then effective else b.effectiveFrom,
       decidedBy := Some(who), decidedAt := Some(at))
  }

  function Decided(t: Tables, c: string, baselineId: string, approve: bool, effective: Option<int>, who: string,
                   at: Stamp): (Tables, Outcome) {
    match FirstIndex(t.baselines, HasBaselineId(c, baselineId))
    case None => (t, NoSuchRow)
    case Some(i) =>
      var row := t.baselines[i];
      if row.status != Pending then (t, AlreadyDecided)
      else
        var previous := ApprovedBaseline(t.baselines, c, row.studentId);
        var oldValues := if approve && previous.Some? then Some(Plain(previous.value.hours)) else None;
        var row' := DecidedRow(row, approve, effective, who, at);
        var bs := if approve then RetireApproved(t.baselines, c, row.studentId) else t.baselines;
        var newValues := LogValues(row.hours, if approve then Some(effective) else None);
        (t.(baselines := bs[i := row'],
            log := Logged(t.log, c, who, if approve then BaselineApprove else BaselineReject, row.studentId, None,
                          oldValues, Some(newValues), at)),
         Accepted)
  }

  function HasUpdateId(c: string, id: string): UpdateRow -> bool {
    (u: UpdateRow) => u.classId == c && u.id == id
  }

  function PointsAt(c: string, id: string): UpdateRow -> bool {
    (u: UpdateRow) => u.classId == c && u.supersededBy == Some(id)
  }

  function MarkReversed(us: seq<UpdateRow>, i: nat, who: string, at: Stamp): (r: seq<UpdateRow>)
    requires i < |us|
    ensures |r| == |us|
  {
    us[i := us[i].(reversedBy := Some(who), reversedAt := Some(at))]
  }

  /** Row i is marked reversed and the row it had replaced shows again. */
  function Popped(us: seq<UpdateRow>, i: nat, who: string, at: Stamp): (r: seq<UpdateRow>)
    requires i < |us|
    ensures |r| == |us|
  {
    var us1 := MarkReversed(us, i, who, at);
    match FirstIndex(us1, PointsAt(us[i].classId, us[i].id))
    case None => us1
    case Some(j) => us1[j := us1[j].(supersededBy := None)]
  }

  function WeeklyReversed(t: Tables, c: string, updateId: string, who: string, at: Stamp): (Tables, Outcome) {
    match FirstIndex(t.updates, HasUpdateId(c, updateId))
    case None => (t, NoSuchRow)
    case Some(i) =>
      var row := t.updates[i];
      if row.reversedAt.Some? then (t, AlreadyReversed)
      else if row.supersededBy.Some? then (t, ReplacedByLaterEdit)
      else
        var us := Popped(t.updates, i, who, at);
        var now := HoursInEffect(t.baselines, us, KeyOf(row));
        (t.(updates := us,
            log := Logged(t.log, c, who, WeeklyReverse, row.studentId, Some(row.weekId), Some(Plain(row.hours)),
                          Some(Plain(now.hours)), at)),
         Accepted)
  }

  function Step(t: Tables, op: Op): (Tables, Outcome) {
    match op
    case SubmitBaseline(c, s, h, at, actor) => (Submitted(t, c, s, h, at, actor), Accepted)
    case SetWeekly(c, s, weekId, week, h, at, actor) => (WeeklySaved(t, c, s, weekId, week, h, at, actor), Accepted)
    case Decide(c, id, approve, effective, who, at) => Decided(t, c, id, approve, effective, who, at)
    case ReverseWeekly(c, id, who, at) => WeeklyReversed(t, c, id, who, at)
  }

  function Run(t: Tables, ops: seq<Op>): Tables
    decreases |ops|
  {
    if ops == [] then t else Run(Step(t, ops[0]).0, ops[1..])
  }
}
