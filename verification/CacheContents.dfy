/** What the snapshots of the cache protocol contain: the store after any interleaving is
    the ledger run of the committed operations, every version of a class is its listings
    after a prefix of them, and so a committed write is what later reads resolve to. */
module CacheContents {
  import opened Wrappers
  import opened Sequences
  import opened Commitments
  import opened Ledger
  import opened UndoStacks
  import opened LedgerInvariant
  import opened LedgerRuns
  import opened LedgerLaws
  import opened LedgerEffects
  import opened SnapshotCache
  import opened CacheProtocol

  /* The store is the run of the commits. */

  /** The ledger operations that a run of events commits, in order. */
  function CommittedOps(es: seq<Event>): seq<Op> {
    if es == [] then []
    else (match es[0] case CommitOp(_, op) => [op] case _ => []) + CommittedOps(es[1..])
  }

  /** The settings of class c after a run that started with the given ones. */
  function LastSettings(es: seq<Event>, c: string, before: Settings): Settings
    decreases |es|
  {
    if es == [] then before
    else
      LastSettings(es[1..], c, match es[0] case CommitSettings(_, d, value) => (if d == c then value else before) case _ => before)
  }

  lemma OneStore(w: World, e: Event, ttl: real, c: string)
    requires Enabled(w, e, ttl)
    ensures Apply(w, e, ttl).tables == match e case CommitOp(_, op) => Step(w.tables, op).0 case _ => w.tables
    ensures SettingsOf(Apply(w, e, ttl), c)
            == match e case CommitSettings(_, d, value) => (if d == c then value else SettingsOf(w, c)) case _ => SettingsOf(w, c)
  {
    hide Step;
    hide ViewOf;
    hide Assembled;
    hide IsHit;
  }

  /** However readers and writers interleave, the tables are the ledger run of the
      committed operations in commit order, and a class's settings the last ones saved. */
  lemma {:induction false} StoreIsRun(w: World, es: seq<Event>, ttl: real, c: string)
    requires Possible(w, es, ttl)
    ensures After(w, es, ttl).tables == Run(w.tables, CommittedOps(es))
    ensures SettingsOf(After(w, es, ttl), c) == LastSettings(es, c, SettingsOf(w, c))
    decreases |es|
  {
    hide Apply;
    hide Enabled;
    hide Step;
    hide SettingsOf;
    if es != [] {
      OneStore(w, es[0], ttl, c);
      StoreIsRun(Apply(w, es[0], ttl), es[1..], ttl, c);
      match es[0] {
        case CommitOp(_, op) => assert ([op] + CommittedOps(es[1..]))[1..] == CommittedOps(es[1..]);
        case _ => assert [] + CommittedOps(es[1..]) == CommittedOps(es[1..]);
      }
    }
  }

  /** A class's view is its listings and its settings. */
  lemma ViewIsListings(w: World, c: string)
    ensures ViewOf(w, c) == View(ListBaselines(w.tables, c), ListUpdates(w.tables, c), SettingsOf(w, c))
  {
  }

  /** A class that never saved settings has the shared ones. */
  lemma SettingsByDefault(w: World, c: string)
    requires c !in w.settings
    ensures var s := ViewOf(w, c).settings;
      && s.rate == 0.01 && s.cap == 1.25 && s.typeWeights == map["work" := 1.0, "childcare" := 1.0, "eldercare" := 1.0]
      && s.tieBreakers == ["attendance", "homework"] && s.weights.None?
  {
  }

  /* Versions are prefixes. */

  predicate CommitsTo(e: Event, c: string) { (e.CommitOp? && e.op.classId == c) || (e.CommitSettings? && e.classId == c) }

  function CommitCount(es: seq<Event>, c: string): nat {
    if es == [] then 0 else (if CommitsTo(es[0], c) then 1 else 0) + CommitCount(es[1..], c)
  }

  lemma OneCount(w: World, e: Event, ttl: real, c: string)
    requires Enabled(w, e, ttl)
    ensures Commits(Apply(w, e, ttl), c) == Commits(w, c) + (if CommitsTo(e, c) then 1 else 0)
    ensures forall v | 0 <= v <= Commits(w, c) :: Past(Apply(w, e, ttl), c, v) == Past(w, c, v)
  {
    hide Apply;
    hide Enabled;
    hide ViewOf;
    if IsCommit(e) {
      CommitShape(w, e, ttl);
    } else if e.Invalidate? {
      InvalidateStore(w, e, ttl);
      ViewByStore(w, Apply(w, e, ttl), c);
    } else {
      ReaderShape(w, e, ttl);
      ViewByStore(w, Apply(w, e, ttl), c);
    }
  }

  lemma InvalidateStore(w: World, e: Event, ttl: real)
    requires Enabled(w, e, ttl) && e.Invalidate?
    ensures var w' := Apply(w, e, ttl); w'.tables == w.tables && w'.settings == w.settings && w'.earlier == w.earlier
  {
  }

  lemma {:induction false} RunCount(w: World, es: seq<Event>, ttl: real, c: string)
    requires Possible(w, es, ttl)
    ensures Commits(After(w, es, ttl), c) == Commits(w, c) + CommitCount(es, c)
    ensures forall v | 0 <= v <= Commits(w, c) :: Past(After(w, es, ttl), c, v) == Past(w, c, v)
    decreases |es|
  {
    hide Apply;
    hide Enabled;
    hide Past;
    hide Commits;
    if es != [] {
      OneCount(w, es[0], ttl, c);
      RunCount(Apply(w, es[0], ttl), es[1..], ttl, c);
    }
  }

  lemma {:induction false} RunSplit(w: World, a: seq<Event>, b: seq<Event>, ttl: real)
    requires Possible(w, a + b, ttl)
    ensures Possible(w, a, ttl) && Possible(After(w, a, ttl), b, ttl)
    ensures After(w, a + b, ttl) == After(After(w, a, ttl), b, ttl)
    decreases |a|
  {
    hide Apply;
    hide Enabled;
    if a == [] {
      assert a + b == b;
    } else {
      assert (a + b)[1..] == a[1..] + b;
      RunSplit(Apply(w, a[0], ttl), a[1..], b, ttl);
    }
  }

  lemma PastNow(w: World, c: string)
    ensures Past(w, c, Commits(w, c)) == ViewOf(w, c)
  {
    hide ViewOf;
  }

  /** A class's view after m events of a run stays on record as the version of that many
      commits, and is its listings after the operations committed by then. */
  lemma VersionIsPrefix(w: World, es: seq<Event>, ttl: real, c: string, m: nat)
    requires Possible(w, es, ttl) && m <= |es|
    ensures Possible(w, es[..m], ttl)
    ensures Commits(w, c) + CommitCount(es[..m], c) <= Commits(After(w, es, ttl), c)
    ensures Past(After(w, es, ttl), c, Commits(w, c) + CommitCount(es[..m], c))
            == var t := Run(w.tables, CommittedOps(es[..m]));
               View(ListBaselines(t, c), ListUpdates(t, c), LastSettings(es[..m], c, SettingsOf(w, c)))
  {
    hide Possible;
    hide After;
    hide Past;
    hide Commits;
    hide Run;
    hide ViewOf;
    hide SettingsOf;
    assert es == es[..m] + es[m..];
    RunSplit(w, es[..m], es[m..], ttl);
    var wm := After(w, es[..m], ttl);
    RunCount(w, es[..m], ttl, c);
    RunCount(wm, es[m..], ttl, c);
    PastNow(wm, c);
    ViewIsListings(wm, c);
    StoreIsRun(w, es[..m], ttl, c);
  }

  lemma {:induction false} CountReaches(es: seq<Event>, c: string, v: nat) returns (m: nat)
    requires v <= CommitCount(es, c)
    ensures m <= |es| && CommitCount(es[..m], c) == v
    decreases |es|
  {
    if v == 0 {
      m := 0;
    } else {
      var rest := CountReaches(es[1..], c, if CommitsTo(es[0], c) then v - 1 else v);
      m := rest + 1;
      assert es[..m][1..] == es[1..][..rest];
    }
  }

  /* Runs that leave a student-week alone. */

  /** No operation of the run saves or reverses student-week k or approves a baseline for
      its student. */
  ghost predicate LeftAlone(t: Tables, ops: seq<Op>, k: Key)
    decreases |ops|
  {
    ops != [] ==>
      && Delta(t, ops[0], k) == 0
      && (var b := Approval(t, ops[0]); b.Some? ==> b.value.classId != k.classId || b.value.studentId != k.studentId)
      && LeftAlone(Step(t, ops[0]).0, ops[1..], k)
  }

  lemma {:induction false} LeftAloneKeeps(t: Tables, ops: seq<Op>, k: Key)
    requires Valid(t) && LeftAlone(t, ops, k)
    ensures Valid(Run(t, ops))
    ensures Stack(Run(t, ops).updates, k) == Stack(t.updates, k)
    ensures ApprovedBaseline(Run(t, ops).baselines, k.classId, k.studentId) == ApprovedBaseline(t.baselines, k.classId, k.studentId)
    decreases |ops|
  {
    hide Step;
    hide Valid;
    hide Delta;
    hide Approval;
    hide Stack;
    hide ApprovedBaseline;
    if ops != [] {
      StepKeeps(t, ops[0]);
      StepOnStack(t, ops[0], k);
      StepOnApproved(t, ops[0], k.classId, k.studentId);
      LeftAloneKeeps(Step(t, ops[0]).0, ops[1..], k);
    }
  }

  lemma {:induction false} LeftAlonePrefix(t: Tables, ops: seq<Op>, j: nat, k: Key)
    requires LeftAlone(t, ops, k) && j <= |ops|
    ensures LeftAlone(t, ops[..j], k)
    decreases |ops|
  {
    hide Step;
    hide Delta;
    hide Approval;
    if j > 0 {
      assert ops[..j][1..] == ops[1..][..j - 1];
      LeftAlonePrefix(Step(t, ops[0]).0, ops[1..], j - 1, k);
    }
  }

  lemma {:induction false} OpsPrefix(es: seq<Event>, m: nat) returns (j: nat)
    requires m <= |es|
    ensures j <= |CommittedOps(es)| && CommittedOps(es[..m]) == CommittedOps(es)[..j]
    decreases |es|
  {
    if m == 0 {
      j := 0;
    } else {
      var i := OpsPrefix(es[1..], m - 1);
      assert es[..m][1..] == es[1..][..m - 1];
      j := if es[0].CommitOp? then i + 1 else i;
    }
  }

  /** The tables after a prefix of such a run agree on the student-week. */
  lemma PrefixAgrees(t: Tables, es: seq<Event>, m: nat, k: Key)
    requires Valid(t) && LeftAlone(t, CommittedOps(es), k) && m <= |es|
    ensures var t' := Run(t, CommittedOps(es[..m]));
      && Valid(t') && Stack(t'.updates, k) == Stack(t.updates, k)
      && ApprovedBaseline(t'.baselines, k.classId, k.studentId) == ApprovedBaseline(t.baselines, k.classId, k.studentId)
  {
    hide Valid;
    hide Stack;
    hide ApprovedBaseline;
    hide Run;
    hide LeftAlone;
    var j := OpsPrefix(es, m);
    LeftAlonePrefix(t, CommittedOps(es), j, k);
    LeftAloneKeeps(t, CommittedOps(es[..m]), k);
  }

  /** Listings taken at two moments of such a run resolve the week alike. */
  lemma MixedListings(t: Tables, t1: Tables, t2: Tables, k: Key)
    requires Valid(t) && Valid(t1) && Valid(t2)
    requires ApprovedBaseline(t1.baselines, k.classId, k.studentId) == ApprovedBaseline(t.baselines, k.classId, k.studentId)
    requires Stack(t2.updates, k) == Stack(t.updates, k)
    ensures ResolveHours(ActiveBaseline(ListBaselines(t1, k.classId), k.studentId),
                         Where(ListUpdates(t2, k.classId), OfStudent(k.studentId)), k.week) == HoursAt(t, k)
  {
    hide Stack;
    hide Where;
    hide ResolveHours;
    hide ApprovedBaseline;
    hide GoodBaselines;
    hide GoodLog;
    hide Linked;
    var mixed := Tables(t1.baselines, t2.updates, []);
    ListingsGiveHoursInEffect(mixed, k);
    HoursFollowStack(t1.baselines, t2.updates, k);
    HoursFollowStack(t.baselines, t.updates, k);
  }

  /* Reading one's writes, by content. */

  /** What a reader computes for a student-week from one snapshot. */
  function ReadHours(s: Snapshot, k: Key): Resolved {
    ResolveHours(ActiveBaseline(s.baselines, k.studentId), Where(s.updates, OfStudent(k.studentId)), k.week)
  }

  lemma {:induction false} ReachableRun(w: World, es: seq<Event>, ttl: real)
    requires Reachable(w, ttl) && Possible(w, es, ttl)
    ensures Reachable(After(w, es, ttl), ttl)
    decreases |es|
  {
    hide Reachable;
    hide Apply;
    hide Enabled;
    if es != [] {
      ReachableStep(w, es[0], ttl);
      ReachableRun(Apply(w, es[0], ttl), es[1..], ttl);
    }
  }

  /** The part of a later answer that shows a class's updates or baselines is a listing of
      some moment after the acknowledged commit. */
  lemma AnswerIsListings(w: World, es: seq<Event>, e: Event, ttl: real, c: string) returns (mb: nat, mu: nat, ms: nat)
    requires Reachable(w, ttl) && Possible(w, es, ttl)
    requires Commits(w, c) > 0 ==> (c, Commits(w, c)) in After(w, es, ttl).acked
    requires var w' := After(w, es, ttl); Enabled(w', e, ttl) && Returned(w', e, ttl).Some? && PcOf(w', e.tid).classId == c
    ensures mb <= |es| && mu <= |es| && ms <= |es|
    ensures var s := Returned(After(w, es, ttl), e, ttl).value.snap;
      && s.baselines == ListBaselines(Run(w.tables, CommittedOps(es[..mb])), c)
      && s.updates == ListUpdates(Run(w.tables, CommittedOps(es[..mu])), c)
      && s.settings == LastSettings(es[..ms], c, SettingsOf(w, c))
  {
    hide Possible;
    hide After;
    hide Run;
    hide Enabled;
    hide Returned;
    hide Reachable;
    hide Past;
    hide Commits;
    hide SettingsOf;
    hide ListBaselines;
    hide ListUpdates;
    hide LastSettings;
    hide GoodEntry;
    hide CommittedOps;
    hide CommitCount;
    hide NotOlder;
    var w' := After(w, es, ttl);
    ReachableRun(w, es, ttl);
    ReachableInv(w', ttl);
    ReturnedGood(w', e, ttl);
    var r := Returned(w', e, ttl).value;
    RunCount(w, es, ttl, c);
    PartsAfter(w', c, r, Commits(w, c));
    mb := CountReaches(es, c, r.baselines.seen - Commits(w, c));
    mu := CountReaches(es, c, r.updates.seen - Commits(w, c));
    ms := CountReaches(es, c, r.settings.seen - Commits(w, c));
    VersionIsPrefix(w, es, ttl, c, mb);
    VersionIsPrefix(w, es, ttl, c, mu);
    VersionIsPrefix(w, es, ttl, c, ms);
  }

  lemma PartsAfter(w: World, c: string, r: CacheProtocol.Entry, n: nat)
    requires GoodEntry(w, c, r) && (n > 0 ==> (c, n) in w.acked)
    ensures n <= r.baselines.seen <= Commits(w, c) && r.snap.baselines == Past(w, c, r.baselines.seen).baselines
    ensures n <= r.updates.seen <= Commits(w, c) && r.snap.updates == Past(w, c, r.updates.seen).updates
    ensures n <= r.settings.seen <= Commits(w, c) && r.snap.settings == Past(w, c, r.settings.seen).settings
  {
    hide ViewOf;
  }

  /** After any committed operation whose invalidation has returned, every answer for its
      class resolves a student-week to the hours the operation left in effect, until another
      commit touches that week: whatever runs in between, and whether the answer is cached,
      fresh or stale. */
  lemma CommittedHoursAreRead(w: World, commit: Event, es: seq<Event>, e: Event, ttl: real, k: Key)
    requires Reachable(w, ttl) && Valid(w.tables) && commit.CommitOp? && Enabled(w, commit, ttl)
    requires commit.op.classId == k.classId
    requires var w1 := Apply(w, commit, ttl);
      && Possible(w1, es, ttl) && (k.classId, Commits(w1, k.classId)) in After(w1, es, ttl).acked
      && LeftAlone(w1.tables, CommittedOps(es), k)
    requires var w2 := After(Apply(w, commit, ttl), es, ttl);
      Enabled(w2, e, ttl) && Returned(w2, e, ttl).Some? && PcOf(w2, e.tid).classId == k.classId
    ensures var w2 := After(Apply(w, commit, ttl), es, ttl);
      ReadHours(Returned(w2, e, ttl).value.snap, k) == HoursAt(Step(w.tables, commit.op).0, k)
  {
    hide Reachable;
    hide Apply;
    hide Enabled;
    hide Returned;
    hide Possible;
    hide After;
    hide Valid;
    hide Step;
    hide Run;
    hide LeftAlone;
    hide Stack;
    hide ApprovedBaseline;
    hide HoursAt;
    hide Commits;
    hide ListBaselines;
    hide ListUpdates;
    var w1 := Apply(w, commit, ttl);
    OneStore(w, commit, ttl, k.classId);
    StepKeeps(w.tables, commit.op);
    ReachableStep(w, commit, ttl);
    var mb, mu, ms := AnswerIsListings(w1, es, e, ttl, k.classId);
    PrefixAgrees(w1.tables, es, mb, k);
    PrefixAgrees(w1.tables, es, mu, k);
    MixedListings(w1.tables, Run(w1.tables, CommittedOps(es[..mb])), Run(w1.tables, CommittedOps(es[..mu])), k);
  }

  /** A saved week is read back with the hours that were requested. */
  lemma SavedHoursAreRead(w: World, commit: Event, es: seq<Event>, e: Event, ttl: real)
    requires Reachable(w, ttl) && Valid(w.tables) && commit.CommitOp? && commit.op.SetWeekly? && Enabled(w, commit, ttl)
    requires ApprovedBaseline(w.tables.baselines, commit.op.classId, commit.op.studentId).Some?
    requires var w1, k := Apply(w, commit, ttl), Key(commit.op.classId, commit.op.studentId, commit.op.week);
      && Possible(w1, es, ttl) && (k.classId, Commits(w1, k.classId)) in After(w1, es, ttl).acked
      && LeftAlone(w1.tables, CommittedOps(es), k)
    requires var w2 := After(Apply(w, commit, ttl), es, ttl);
      Enabled(w2, e, ttl) && Returned(w2, e, ttl).Some? && PcOf(w2, e.tid).classId == commit.op.classId
    ensures var w2, k := After(Apply(w, commit, ttl), es, ttl), Key(commit.op.classId, commit.op.studentId, commit.op.week);
      var r := ReadHours(Returned(w2, e, ttl).value.snap, k);
      r.source == Weekly && AsRequested(r.hours, commit.op.hours)
  {
    hide Reachable;
    hide Apply;
    hide Enabled;
    hide Returned;
    hide Possible;
    hide After;
    hide Valid;
    hide Step;
    hide LeftAlone;
    hide ApprovedBaseline;
    hide HoursAt;
    hide Commits;
    hide ReadHours;
    var k := Key(commit.op.classId, commit.op.studentId, commit.op.week);
    CommittedHoursAreRead(w, commit, es, e, ttl, k);
    SaveTakesEffect(w.tables, commit.op);
  }

  lemma {:induction false} SettingsStay(es: seq<Event>, c: string, before: Settings, m: nat)
    requires m <= |es| && forall i | 0 <= i < |es| && es[i].CommitSettings? :: es[i].classId != c
    ensures LastSettings(es[..m], c, before) == before
    decreases m
  {
    if m > 0 {
      assert es[..m][1..] == es[1..][..m - 1];
      SettingsStay(es[1..], c, before, m - 1);
    }
  }

  /** Saved settings are in every later answer until the class's settings are saved again. */
  lemma SavedSettingsAreRead(w: World, commit: Event, es: seq<Event>, e: Event, ttl: real)
    requires Reachable(w, ttl) && commit.CommitSettings? && Enabled(w, commit, ttl)
    requires var w1 := Apply(w, commit, ttl);
      Possible(w1, es, ttl) && (commit.classId, Commits(w1, commit.classId)) in After(w1, es, ttl).acked
    requires forall i | 0 <= i < |es| && es[i].CommitSettings? :: es[i].classId != commit.classId
    requires var w2 := After(Apply(w, commit, ttl), es, ttl);
      Enabled(w2, e, ttl) && Returned(w2, e, ttl).Some? && PcOf(w2, e.tid).classId == commit.classId
    ensures Returned(After(Apply(w, commit, ttl), es, ttl), e, ttl).value.snap.settings == commit.value
  {
    hide Reachable;
    hide Apply;
    hide Enabled;
    hide Returned;
    hide Possible;
    hide After;
    hide Run;
    hide Commits;
    hide SettingsOf;
    var w1 := Apply(w, commit, ttl);
    OneStore(w, commit, ttl, commit.classId);
    ReachableStep(w, commit, ttl);
    var mb, mu, ms := AnswerIsListings(w1, es, e, ttl, commit.classId);
    SettingsStay(es, commit.classId, SettingsOf(w1, commit.classId), ms);
  }

  /** Committing, invalidating and reading one after the other is possible from every state
      in which the thread is free and nobody holds the lock, and hands out the listings with
      the operation in them. */
  lemma WriterReadsBack(w: World, tid: nat, op: Op, force: bool, data: SourceData, now: real, ttl: real) returns (w': World)
    requires Reachable(w, ttl) && w.lock.None? && PcOf(w, tid).Idle? && Step(w.tables, op).1 == Accepted
    ensures Reachable(w', ttl) && Enabled(w', Publish(tid, now), ttl)
    ensures var s, t := Returned(w', Publish(tid, now), ttl).value.snap, Step(w.tables, op).0;
      s.baselines == ListBaselines(t, op.classId) && s.updates == ListUpdates(t, op.classId)
      && s.settings == SettingsOf(w, op.classId) && s.source == data
  {
    hide Reachable;
    hide ViewOf;
    hide Step;
    hide Commits;
    var c := op.classId;
    var w4 := WriteThenMiss(w, tid, op, force, now, ttl);
    var w5 := Advance(w4, ReadSource(tid, data), ttl);
    w' := ReadStore(w5, tid, c, data, ttl);
    ViewIsListings(w5, c);
  }

  lemma WriteThenMiss(w: World, tid: nat, op: Op, force: bool, now: real, ttl: real) returns (w': World)
    requires Reachable(w, ttl) && w.lock.None? && PcOf(w, tid).Idle? && Step(w.tables, op).1 == Accepted
    ensures Reachable(w', ttl) && PcOf(w', tid) == Reading(op.classId, None, None, None, None)
    ensures w'.tables == Step(w.tables, op).0 && w'.settings == w.settings
  {
    hide Reachable;
    hide ViewOf;
    hide Step;
    hide Commits;
    var w1 := Advance(w, CommitOp(tid, op), ttl);
    var w2 := Advance(w1, Invalidate(tid), ttl);
    var w3 := Advance(w2, Enter(tid, op.classId, force), ttl);
    w' := Advance(w3, Miss(tid, now), ttl);
  }

  lemma ReadStore(w: World, tid: nat, c: string, data: SourceData, ttl: real) returns (w': World)
    requires Reachable(w, ttl) && PcOf(w, tid) == Reading(c, Some(data), None, None, None)
    ensures Reachable(w', ttl)
    ensures var p := Some(Part(ViewOf(w, c), Commits(w, c))); PcOf(w', tid) == Reading(c, Some(data), p, p, p)
  {
    hide Reachable;
    hide ViewOf;
    var w1 := Advance(w, ReadBaselines(tid), ttl);
    ViewByStore(w, w1, c);
    var w2 := Advance(w1, ReadUpdates(tid), ttl);
    ViewByStore(w, w2, c);
    w' := Advance(w2, ReadSettings(tid), ttl);
  }

  /* What a call hands out. */

  /** The class a thread is busy with. */
  function Subject(pc: Pc): string { if pc.Idle? then "" else pc.classId }

  /** A hit hands out the cached snapshot as it is; a failed source hands out the cached
      snapshot marked stale and nothing else changed, and keeps it, or hands out nothing if
      nothing is cached; a finished read hands out and caches what it read. */
  lemma AnswersOfTheProtocol(w: World, e: Event, ttl: real)
    requires Enabled(w, e, ttl)
    ensures var c, w' := Subject(PcOf(w, e.tid)), Apply(w, e, ttl);
      && (e.Hit? ==> !PcOf(w, e.tid).force && c in w.cache && e.now - w.cache[c].snap.at < ttl)
      && (e.Miss? ==> PcOf(w, e.tid).force || c !in w.cache || e.now - w.cache[c].snap.at >= ttl)
      && (e.Hit? ==> c in w.cache && Returned(w, e, ttl) == Some(w.cache[c]) && w'.cache == w.cache)
      && (e.SourceFails? && c !in w.cache ==> Returned(w, e, ttl).None? && w'.cache == w.cache)
      && (e.SourceFails? && c in w.cache ==>
            && Returned(w, e, ttl).Some? && Returned(w, e, ttl).value == w.cache[c].(snap := w.cache[c].snap.(stale := true))
            && w'.cache == w.cache[c := Returned(w, e, ttl).value])
      && (e.Publish? ==>
            && Returned(w, e, ttl).Some? && w'.cache == w.cache[c := Returned(w, e, ttl).value]
            && Returned(w, e, ttl).value.snap.at == e.now && !Returned(w, e, ttl).value.snap.stale
            && PcOf(w, e.tid).Reading? && PcOf(w, e.tid).source == Some(Returned(w, e, ttl).value.snap.source))
      && (!(e.Hit? || e.SourceFails? || e.Publish?) ==> Returned(w, e, ttl).None?)
  {
    hide ViewOf;
    hide Step;
  }
}
