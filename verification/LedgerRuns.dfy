/** Laws of whole runs of the ledger. */
module LedgerRuns {
  import opened Wrappers
  import opened Sequences
  import opened Commitments
  import opened Ledger
  import opened UndoStacks
  import opened LedgerInvariant

  function HoursAt(t: Tables, k: Key): Resolved { HoursInEffect(t.baselines, t.updates, k) }

  /* The undo law. */

  /** Saves minus accepted reversals of student-week k along a run. */
  function NetDelta(t: Tables, ops: seq<Op>, k: Key): int
    decreases |ops|
  {
    if ops == [] then 0 else Delta(t, ops[0], k) + NetDelta(Step(t, ops[0]).0, ops[1..], k)
  }

  /** Started d saves up, the run never reverses more than it has saved. */
  ghost predicate NeverBelow(t: Tables, ops: seq<Op>, k: Key, d: int)
    decreases |ops|
  {
    d >= 0 && (ops != [] ==> NeverBelow(Step(t, ops[0]).0, ops[1..], k, d + Delta(t, ops[0], k)))
  }

  ghost predicate WellNested(t: Tables, ops: seq<Op>, k: Key) {
    NeverBelow(t, ops, k, 0) && NetDelta(t, ops, k) == 0
  }

  /** No baseline of the student is approved along the run. */
  ghost predicate NoApproval(t: Tables, ops: seq<Op>, c: string, s: string)
    decreases |ops|
  {
    ops != [] ==>
      && (Approval(t, ops[0]).Some? ==> Approval(t, ops[0]).value.classId != c || Approval(t, ops[0]).value.studentId != s)
      && NoApproval(Step(t, ops[0]).0, ops[1..], c, s)
  }

  /** What lies below a run's lowest point is untouched by the run. */
  lemma {:induction false} RunKeepsBottom(t: Tables, ops: seq<Op>, k: Key, d: nat)
    requires Valid(t) && d <= |Stack(t.updates, k)| && NeverBelow(t, ops, k, d)
    ensures var before, after := Stack(t.updates, k), Stack(Run(t, ops).updates, k);
      && |after| == |before| + NetDelta(t, ops, k)
      && |before| - d <= |after|
      && after[..|before| - d] == before[..|before| - d]
    decreases |ops|
  {
    hide Step;
    hide Stack;
    hide Delta;
    hide Valid;
    if ops != [] {
      var t1 := Step(t, ops[0]).0;
      var before, next := Stack(t.updates, k), Stack(t1.updates, k);
      StepKeeps(t, ops[0]);
      StepOnStack(t, ops[0], k);
      RunKeepsBottom(t1, ops[1..], k, d + Delta(t, ops[0], k));
      assert next[..|before| - d] == before[..|before| - d];
    }
  }

  lemma {:induction false} RunKeepsApproved(t: Tables, ops: seq<Op>, c: string, s: string)
    requires Valid(t) && NoApproval(t, ops, c, s)
    ensures ApprovedBaseline(Run(t, ops).baselines, c, s) == ApprovedBaseline(t.baselines, c, s)
    decreases |ops|
  {
    if ops != [] {
      StepKeeps(t, ops[0]);
      StepOnApproved(t, ops[0], c, s);
      RunKeepsApproved(Step(t, ops[0]).0, ops[1..], c, s);
    }
  }

  /** A run in which every accepted reversal of the student-week undoes a save made
      in the run, whatever happens elsewhere, gives back the hours it started with. */
  lemma UndoLaw(t: Tables, ops: seq<Op>, k: Key)
    requires Valid(t)
    requires WellNested(t, ops, k) && NoApproval(t, ops, k.classId, k.studentId)
    ensures HoursAt(Run(t, ops), k) == HoursAt(t, k)
    ensures Stack(Run(t, ops).updates, k) == Stack(t.updates, k)
  {
    hide Step;
    hide Stack;
    hide HoursInEffect;
    RunKeeps(t, ops);
    RunKeepsBottom(t, ops, k, 0);
    RunKeepsApproved(t, ops, k.classId, k.studentId);
    var before, after := Stack(t.updates, k), Stack(Run(t, ops).updates, k);
    assert before == before[..|before|] && after == after[..|before|];
    HoursFollowStack(t.baselines, t.updates, k);
    HoursFollowStack(Run(t, ops).baselines, Run(t, ops).updates, k);
  }

  /* Frame: who can change whose hours. */

  /** Only an approval for the student, or an accepted save or reversal of that very
      week, can change what a student-week resolves to. */
  lemma OnlyOwnOperationsChangeHours(t: Tables, op: Op, k: Key)
    requires Valid(t)
    requires Delta(t, op, k) == 0
    requires Approval(t, op).Some? ==> Approval(t, op).value.classId != k.classId || Approval(t, op).value.studentId != k.studentId
    ensures HoursAt(Step(t, op).0, k) == HoursAt(t, k)
  {
    StepKeeps(t, op);
    StepOnStack(t, op, k);
    StepOnApproved(t, op, k.classId, k.studentId);
    HoursFollowStack(t.baselines, t.updates, k);
    HoursFollowStack(Step(t, op).0.baselines, Step(t, op).0.updates, k);
  }

  /* The change log tells the story of the hours. */

  function LoggedHours(v: Option<LogValues>): Hours { if v.None? then ZERO_HOURS else v.value.hours }

  function WeeklyEntryFor(k: Key, weekId: string): LogRow -> bool {
    (e: LogRow) => e.classId == k.classId && e.studentId == k.studentId && e.weekId == Some(weekId)
                   && (e.action == WeeklySet || e.action == WeeklyReverse)
  }

  /** Each entry starts from the hours the previous one ended with. */
  ghost predicate Links(entries: seq<LogRow>, first: Hours, last: Hours) {
    if entries == [] then first == last
    else LoggedHours(entries[0].oldValues) == first && Links(entries[1..], LoggedHours(entries[0].newValues), last)
  }

  ghost predicate Injective(weekId: int -> string) {
    forall v, w :: weekId(v) == weekId(w) ==> v == w
  }

  /** In class c week ids and week numbers name the same weeks, as the weeks of its
      term have them. Other classes may follow other terms. */
  ghost predicate DatedRows(us: seq<UpdateRow>, c: string, weekId: int -> string) {
    forall i | 0 <= i < |us| && us[i].classId == c :: us[i].weekId == weekId(us[i].week)
  }

  ghost predicate DatedOp(op: Op, c: string, weekId: int -> string) {
    op.SetWeekly? && op.classId == c ==> op.weekId == weekId(op.week)
  }

  ghost predicate DatedOps(ops: seq<Op>, c: string, weekId: int -> string) {
    forall i | 0 <= i < |ops| :: DatedOp(ops[i], c, weekId)
  }

  lemma StepKeepsDates(t: Tables, op: Op, c: string, weekId: int -> string)
    requires DatedRows(t.updates, c, weekId) && DatedOp(op, c, weekId)
    ensures DatedRows(Step(t, op).0.updates, c, weekId)
  {
    hide HoursInEffect;
    hide DecidedRow;
    hide RetireApproved;
  }

  lemma SetLogsItsHours(t: Tables, op: Op, k: Key)
    requires Valid(t) && op.SetWeekly? && Delta(t, op, k) == 1
    requires ApprovedBaseline(t.baselines, k.classId, k.studentId).Some?
    ensures var e := Step(t, op).0.log[|t.log|];
      LoggedHours(e.oldValues) == HoursAt(t, k).hours && LoggedHours(e.newValues) == HoursAt(Step(t, op).0, k).hours
  {
    SaveStep(t, op);
    HoursFollowStack(t.baselines, t.updates, k);
    HoursFollowStack(Step(t, op).0.baselines, Step(t, op).0.updates, k);
  }

  lemma ReverseLogsItsHours(t: Tables, op: Op, k: Key)
    requires Valid(t) && op.ReverseWeekly? && Delta(t, op, k) == -1
    requires ApprovedBaseline(t.baselines, k.classId, k.studentId).Some?
    ensures var e := Step(t, op).0.log[|t.log|];
      LoggedHours(e.oldValues) == HoursAt(t, k).hours && LoggedHours(e.newValues) == HoursAt(Step(t, op).0, k).hours
  {
    hide Pile;
    hide Where;
    hide Linked;
    hide GoodBaselines;
    hide GoodLog;
    hide Popped;
    var i := FirstIndex(t.updates, HasUpdateId(op.classId, op.updateId)).value;
    HoursFollowStack(t.baselines, t.updates, k);
    LiveRowIsTop(t.updates, k, i);
    assert Stack(t.updates, k)[|Stack(t.updates, k)| - 1] == t.updates[i].hours;
  }

  /** The entry an accepted operation adds is about student-week k exactly when
      the operation pushed or popped k's stack. */
  lemma EntryIsAbout(t: Tables, op: Op, k: Key, weekId: int -> string)
    requires Valid(t) && Injective(weekId) && Step(t, op).1 == Accepted
    requires DatedRows(t.updates, k.classId, weekId) && DatedOp(op, k.classId, weekId)
    ensures WeeklyEntryFor(k, weekId(k.week))(Step(t, op).0.log[|t.log|]) <==> Delta(t, op, k) != 0
  {
  }

  lemma {:induction false} LogOnlyGrows(t: Tables, ops: seq<Op>)
    requires Valid(t)
    ensures |t.log| <= |Run(t, ops).log| && Run(t, ops).log[..|t.log|] == t.log
    decreases |ops|
  {
    hide Step;
    hide Valid;
    if ops != [] {
      var t1 := Step(t, ops[0]).0;
      StepKeeps(t, ops[0]);
      LogOnlyGrows(t1, ops[1..]);
      assert Run(t, ops).log[..|t.log|] == Run(t1, ops[1..]).log[..|t1.log|][..|t.log|];
    }
  }

  /** One more entry in front of a chained stretch of the log. */
  lemma LinkInFront(log: seq<LogRow>, m: nat, p: LogRow -> bool, first: Hours, mid: Hours, last: Hours)
    requires m < |log|
    requires Links(Where(log[m + 1..], p), mid, last)
    requires if p(log[m]) then LoggedHours(log[m].oldValues) == first && LoggedHours(log[m].newValues) == mid
             else first == mid
    ensures Links(Where(log[m..], p), first, last)
  {
    assert log[m..] == [log[m]] + log[m + 1..];
    WherePrepend(log[m], log[m + 1..], p);
    var rest := Where(log[m + 1..], p);
    if p(log[m]) {
      assert ([log[m]] + rest)[1..] == rest;
    } else {
      assert [] + rest == rest;
    }
  }

  /** While a student has an approved baseline and gets no new one, a week's log
      entries chain from the hours at the start to the hours in effect now, whatever
      other classes and their terms do. */
  lemma {:induction false} LogChains(t: Tables, ops: seq<Op>, k: Key, weekId: int -> string)
    requires Valid(t) && ApprovedBaseline(t.baselines, k.classId, k.studentId).Some?
    requires NoApproval(t, ops, k.classId, k.studentId)
    requires Injective(weekId) && DatedRows(t.updates, k.classId, weekId) && DatedOps(ops, k.classId, weekId)
    ensures |t.log| <= |Run(t, ops).log|
    ensures Links(Where(Run(t, ops).log[|t.log|..], WeeklyEntryFor(k, weekId(k.week))),
                  HoursAt(t, k).hours, HoursAt(Run(t, ops), k).hours)
    decreases |ops|
  {
    hide Step;
    hide Delta;
    hide Valid;
    hide HoursAt;
    LogOnlyGrows(t, ops);
    if ops == [] {
      assert t.log[|t.log|..] == [];
    } else {
      var op, t1, t2 := ops[0], Step(t, ops[0]).0, Run(t, ops);
      StepKeeps(t, op);
      StepKeepsDates(t, op, k.classId, weekId);
      StepOnApproved(t, op, k.classId, k.studentId);
      LogChains(t1, ops[1..], k, weekId);
      LogOnlyGrows(t1, ops[1..]);
      if Delta(t, op, k) == 0 {
        OnlyOwnOperationsChangeHours(t, op, k);
      } else {
        LinkFirst(t, op, k);
      }
      if Step(t, op).1 == Accepted {
        EntryIsAbout(t, op, k, weekId);
        assert t2.log[|t.log|] == t2.log[..|t1.log|][|t.log|];
        LinkInFront(t2.log, |t.log|, WeeklyEntryFor(k, weekId(k.week)),
                    HoursAt(t, k).hours, HoursAt(t1, k).hours, HoursAt(t2, k).hours);
      }
    }
  }

  lemma LinkFirst(t: Tables, op: Op, k: Key)
    requires Valid(t) && ApprovedBaseline(t.baselines, k.classId, k.studentId).Some? && Delta(t, op, k) != 0
    ensures Step(t, op).1 == Accepted && |Step(t, op).0.log| == |t.log| + 1
    ensures var e := Step(t, op).0.log[|t.log|];
      LoggedHours(e.oldValues) == HoursAt(t, k).hours && LoggedHours(e.newValues) == HoursAt(Step(t, op).0, k).hours
  {
    if op.SetWeekly? {
      SetLogsItsHours(t, op, k);
    } else {
      ReverseLogsItsHours(t, op, k);
    }
  }
}
