/** The rows of the commitments tables and which hours they put in effect.
    Row order is primary-key order; rows are only ever appended. */
module Commitments {
  import opened Wrappers
  import opened Sequences

  datatype Hours = Hours(work: real, childcare: real, eldercare: real)

  const ZERO_HOURS := Hours(0.0, 0.0, 0.0)

  /** Hours as a request carries them: any of the three may be missing. */
  datatype HoursInput = HoursInput(work: Option<real>, childcare: Option<real>, eldercare: Option<real>)

  function HoursColumns(h: HoursInput): Hours {
    Hours(h.work.GetOr(0.0), h.childcare.GetOr(0.0), h.eldercare.GetOr(0.0))
  }

  /** Timestamps are opaque; the clock never prints an empty one. */
  type Stamp = s: string | s != "" witness "t"

  datatype Status = Pending | Approved | Rejected | Superseded

  datatype BaselineRow = BaselineRow(
    id: string, classId: string, studentId: string, hours: Hours, status: Status,
    effectiveFrom: Option<int>, submittedAt: Stamp, decidedBy: Option<string>, decidedAt: Option<Stamp>)

  datatype UpdateRow = UpdateRow(
    id: string, classId: string, studentId: string, weekId: string, week: int, hours: Hours,
    enteredAt: Stamp, reversedBy: Option<string>, reversedAt: Option<Stamp>, supersededBy: Option<string>)

  /** One student's week in one class: what a weekly update is about. */
  datatype Key = Key(classId: string, studentId: string, week: int)

  function KeyOf(u: UpdateRow): Key { Key(u.classId, u.studentId, u.week) }

  datatype Source = NoBaseline | NotApproved(status: Status) | Weekly | Baseline | BeforeEffective

  datatype Resolved = Resolved(hours: Hours, source: Source)

  /** A missing or zero effective week counts as week 1. */
  function EffectiveWeek(b: BaselineRow): int {
    match b.effectiveFrom
    case None => 1
    case Some(w) => if w == 0 then 1 else w
  }

  function AppliesTo(week: int): UpdateRow -> bool {
    (u: UpdateRow) => u.week == week && u.reversedAt.None?
  }

  /** The hours one approved baseline gives a week without weekly updates. */
  function FromBaseline(b: BaselineRow, week: int): Resolved {
    if week >= EffectiveWeek(b) then Resolved(b.hours, Baseline) else Resolved(ZERO_HOURS, BeforeEffective)
  }

  function ResolveHours(baseline: Option<BaselineRow>, updates: seq<UpdateRow>, week: int): Resolved {
    match baseline
    case None => Resolved(ZERO_HOURS, NoBaseline)
    case Some(b) =>
      if b.status != Approved then Resolved(ZERO_HOURS, NotApproved(b.status))
      else
        match FirstIndex(updates, AppliesTo(week))
        case Some(i) => Resolved(updates[i].hours, Weekly)
        case None => FromBaseline(b, week)
  }

  /* Queries over the two tables. */

  function InClass(c: string): BaselineRow -> bool { (b: BaselineRow) => b.classId == c }

  function ApprovedFor(c: string, s: string): BaselineRow -> bool {
    (b: BaselineRow) => b.classId == c && b.studentId == s && b.status == Approved
  }

  function NotSupersededFor(c: string, s: string): BaselineRow -> bool {
    (b: BaselineRow) => b.classId == c && b.studentId == s && b.status != Superseded
  }

  function LiveInClass(c: string): UpdateRow -> bool {
    (u: UpdateRow) => u.classId == c && u.supersededBy.None?
  }

  function LiveFor(c: string, s: string): UpdateRow -> bool {
    (u: UpdateRow) => u.classId == c && u.studentId == s && u.supersededBy.None?
  }

  function LiveWeekly(k: Key): UpdateRow -> bool {
    (u: UpdateRow) => KeyOf(u) == k && u.reversedAt.None? && u.supersededBy.None?
  }

  function LastOf<T>(s: seq<T>): Option<T> { if s == [] then None else Some(s[|s| - 1]) }

  function ApprovedBaseline(bs: seq<BaselineRow>, c: string, s: string): Option<BaselineRow> {
    LastOf(Where(bs, ApprovedFor(c, s)))
  }

  function HoursInEffect(bs: seq<BaselineRow>, us: seq<UpdateRow>, k: Key): Resolved {
    ResolveHours(ApprovedBaseline(bs, k.classId, k.studentId), Where(us, LiveFor(k.classId, k.studentId)), k.week)
  }
}
