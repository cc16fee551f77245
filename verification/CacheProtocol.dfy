/** Many request threads over one store and one snapshot cache. A reader holds the
    service lock while it reads source, baselines, updates and settings one after
    the other; a writer commits to the store without that lock and takes it only
    to drop the cached snapshot. Every event below is one atomic step, and events
    of different threads interleave in any order. */
module CacheProtocol {
  import opened Wrappers
  import opened Sequences
  import opened Commitments
  import opened Ledger
  import opened LedgerLaws
  import opened SnapshotCache

  /** What a class's snapshot takes from the store. */
  datatype View = View(baselines: seq<BaselineRow>, updates: seq<UpdateRow>, settings: Settings)

  /** One part of a snapshot as it was read: the class's view at that moment, of
      which the part is a component, and how many commits of the class it has seen. */
  datatype Part = Part(view: View, seen: nat)

  /** Where a thread is: outside, holding the lock, part-way through a read, or
      between its commit and its invalidation. */
  datatype Pc =
    | Idle
    | Entered(classId: string, force: bool)
    | Reading(classId: string, source: Option<SourceData>, baselines: Option<Part>, updates: Option<Part>,
              settings: Option<Part>)
    | Committed(classId: string, number: nat)

  /** A cached snapshot and the parts it was put together from. */
  datatype Entry = Entry(snap: Snapshot, baselines: Part, updates: Part, settings: Part)

  /** earlier, acked and served are history: the views a class had before each of
      its commits, the commits whose invalidation has returned, and what the
      class was last served with. */
  datatype World = World(
    tables: Tables, settings: map<string, Settings>, cache: map<string, Entry>, lock: Option<nat>, pcs: map<nat, Pc>,
    earlier: map<string, seq<View>>, acked: set<(string, nat)>, served: map<string, Entry>)

  datatype Event =
    | Enter(tid: nat, classId: string, force: bool)
    | Hit(tid: nat, now: real)
    | Miss(tid: nat, now: real)
    | ReadSource(tid: nat, data: SourceData)
    | SourceFails(tid: nat)
    | NoSuchClass(tid: nat)
    | ReadBaselines(tid: nat)
    | ReadUpdates(tid: nat)
    | ReadSettings(tid: nat)
    | Publish(tid: nat, now: real)
    | CommitOp(tid: nat, op: Op)
    | CommitSettings(tid: nat, classId: string, value: Settings)
    | Invalidate(tid: nat)

  const DEFAULT_SETTINGS := Settings(map["work" := 1.0, "childcare" := 1.0, "eldercare" := 1.0], 0.01, 1.25,
                                     ["attendance", "homework"], None)

  function SettingsOf(w: World, c: string): Settings {
    if c in w.settings then w.settings[c] else DEFAULT_SETTINGS
  }

  function ViewOf(w: World, c: string): View {
    View(ListBaselines(w.tables, c), ListUpdates(w.tables, c), SettingsOf(w, c))
  }

  function Earlier(w: World, c: string): seq<View> { if c in w.earlier then w.earlier[c] else [] }

  /** How many times the class has been committed to. */
  function Commits(w: World, c: string): nat { |Earlier(w, c)| }

  /** The class's view after its first n commits. */
  function Past(w: World, c: string, n: nat): View
    requires n <= Commits(w, c)
  {
    if n < Commits(w, c) then Earlier(w, c)[n] else ViewOf(w, c)
  }

  function CachedSnapshot(w: World, c: string): Option<Snapshot> {
    if c in w.cache then Some(w.cache[c].snap) else None
  }

  function PcOf(w: World, tid: nat): Pc { if tid in w.pcs then w.pcs[tid] else Idle }

  predicate Enabled(w: World, e: Event, ttl: real) {
    var pc := PcOf(w, e.tid);
    match e
    case Enter(_, _, _) => pc.Idle? && w.lock.None?
    case Hit(_, now) => pc.Entered? && IsHit(CachedSnapshot(w, pc.classId), pc.force, now, ttl)
    case Miss(_, now) => pc.Entered? && !IsHit(CachedSnapshot(w, pc.classId), pc.force, now, ttl)
    case ReadSource(_, _) => pc.Reading? && pc.source.None?
    case SourceFails(_) => pc.Reading? && pc.source.None?
    case NoSuchClass(_) => pc.Reading? && pc.source.None?
    case ReadBaselines(_) => pc.Reading? && pc.source.Some? && pc.baselines.None?
    case ReadUpdates(_) => pc.Reading? && pc.baselines.Some? && pc.updates.None?
    case ReadSettings(_) => pc.Reading? && pc.updates.Some? && pc.settings.None?
    case Publish(_, _) => pc.Reading? && pc.source.Some? && pc.baselines.Some? && pc.updates.Some? && pc.settings.Some?
    case CommitOp(_, op) => pc.Idle? && Step(w.tables, op).1 == Accepted
    case CommitSettings(_, _, _) => pc.Idle?
    case Invalidate(_) => pc.Committed? && w.lock.None?
  }

  /** The entry a thread puts together from its four reads. */
  function Assembled(pc: Pc, now: real): Entry
    requires pc.Reading? && pc.source.Some? && pc.baselines.Some? && pc.updates.Some? && pc.settings.Some?
  {
    var b, u, s := pc.baselines.value, pc.updates.value, pc.settings.value;
    Entry(Snapshot(now, pc.classId, pc.source.value, b.view.baselines, u.view.updates, s.view.settings, false), b, u, s)
  }

  function At(w: World, tid: nat, pc: Pc): World { w.(pcs := w.pcs[tid := pc]) }

  function Leave(w: World, tid: nat): World { At(w, tid, Idle).(lock := None) }

  /** The store has changed from w to w'; class c's old view is remembered and the
      writer now owes an invalidation. */
  function Recorded(w: World, w': World, tid: nat, c: string): World {
    At(w', tid, Committed(c, Commits(w, c) + 1)).(earlier := w.earlier[c := Earlier(w, c) + [ViewOf(w, c)]])
  }

  function Marked(e: Entry): Entry { e.(snap := e.snap.(stale := true)) }

  /** What the event hands back to a caller of `snapshot`: a cached snapshot, a
      fresh one, or the cached one marked stale because the source failed. */
  function Returned(w: World, e: Event, ttl: real): Option<Entry>
    requires Enabled(w, e, ttl)
  {
    var pc := PcOf(w, e.tid);
    match e
    case Hit(_, _) => Some(w.cache[pc.classId])
    case SourceFails(_) => if pc.classId in w.cache then Some(Marked(w.cache[pc.classId])) else None
    case Publish(_, now) => Some(Assembled(pc, now))
    case _ => None
  }

  function Apply(w: World, e: Event, ttl: real): World
    requires Enabled(w, e, ttl)
  {
    var pc := PcOf(w, e.tid);
    match e
    case Enter(tid, c, force) => At(w, tid, Entered(c, force)).(lock := Some(tid))
    case Hit(tid, _) => Leave(w, tid).(served := w.served[pc.classId := w.cache[pc.classId]])
    case Miss(tid, _) => At(w, tid, Reading(pc.classId, None, None, None, None))
    case ReadSource(tid, data) => At(w, tid, pc.(source := Some(data)))
    case SourceFails(tid) =>
      if pc.classId !in w.cache then Leave(w, tid)
      else
        var marked := Marked(w.cache[pc.classId]);
        Leave(w, tid).(cache := w.cache[pc.classId := marked], served := w.served[pc.classId := marked])
    case NoSuchClass(tid) => Leave(w, tid)
    case ReadBaselines(tid) => At(w, tid, pc.(baselines := Some(Part(ViewOf(w, pc.classId), Commits(w, pc.classId)))))
    case ReadUpdates(tid) => At(w, tid, pc.(updates := Some(Part(ViewOf(w, pc.classId), Commits(w, pc.classId)))))
    case ReadSettings(tid) => At(w, tid, pc.(settings := Some(Part(ViewOf(w, pc.classId), Commits(w, pc.classId)))))
    case Publish(tid, now) =>
      var entry := Assembled(pc, now);
      Leave(w, tid).(cache := w.cache[pc.classId := entry], served := w.served[pc.classId := entry])
    case CommitOp(tid, op) => Recorded(w, w.(tables := Step(w.tables, op).0), tid, op.classId)
    case CommitSettings(tid, c, value) => Recorded(w, w.(settings := w.settings[c := value]), tid, c)
    case Invalidate(tid) =>
      At(w, tid, Idle).(cache := w.cache - {pc.classId}, acked := w.acked + {(pc.classId, pc.number)})
  }

  /* The invariant. */

  /** Whoever is inside `snapshot` holds the lock, so at most one thread is. */
  ghost predicate LockHeld(w: World) {
    forall tid | tid in w.pcs && (w.pcs[tid].Entered? || w.pcs[tid].Reading?) :: w.lock == Some(tid)
  }

  /** The part is the class's view at its version. */
  ghost predicate Genuine(w: World, c: string, p: Part) {
    p.seen <= Commits(w, c) && p.view == Past(w, c, p.seen)
  }

  /** The version is no older than any acknowledged commit of the class. */
  ghost predicate AfterAcked(w: World, c: string, seen: nat) {
    forall n | (c, n) in w.acked :: n <= seen
  }

  ghost predicate GoodPart(w: World, c: string, p: Part) { Genuine(w, c, p) && AfterAcked(w, c, p.seen) }

  ghost predicate GoodEntry(w: World, c: string, e: Entry) {
    && GoodPart(w, c, e.baselines) && GoodPart(w, c, e.updates) && GoodPart(w, c, e.settings)
    && e.snap.baselines == e.baselines.view.baselines
    && e.snap.updates == e.updates.view.updates
    && e.snap.settings == e.settings.view.settings
  }

  ghost predicate NotOlder(e: Entry, than: Entry) {
    && than.baselines.seen <= e.baselines.seen && than.updates.seen <= e.updates.seen
    && than.settings.seen <= e.settings.seen
  }

  ghost predicate GoodRead(w: World, c: string, read: Option<Part>, lastServed: nat) {
    read.Some? ==> GoodPart(w, c, read.value) && (c in w.served ==> lastServed <= read.value.seen)
  }

  ghost predicate GoodReader(w: World, pc: Pc)
    requires pc.Reading?
  {
    var c := pc.classId;
    && GoodRead(w, c, pc.baselines, if c in w.served then w.served[c].baselines.seen else 0)
    && GoodRead(w, c, pc.updates, if c in w.served then w.served[c].updates.seen else 0)
    && GoodRead(w, c, pc.settings, if c in w.served then w.served[c].settings.seen else 0)
  }

  ghost predicate Owed(w: World, c: string, n: nat) {
    exists tid :: tid in w.pcs && w.pcs[tid] == Committed(c, n)
  }

  /** Every commit of a class is acknowledged or its writer still owes an invalidation. */
  ghost predicate Accounted(w: World) {
    && (forall c, n | (c, n) in w.acked :: n <= Commits(w, c))
    && (forall tid | tid in w.pcs && w.pcs[tid].Committed? :: w.pcs[tid].number <= Commits(w, w.pcs[tid].classId))
    && (forall c, n | 1 <= n <= Commits(w, c) :: (c, n) in w.acked || Owed(w, c, n))
  }

  ghost predicate ServedKnown(w: World) {
    forall c | c in w.served ::
      Genuine(w, c, w.served[c].baselines) && Genuine(w, c, w.served[c].updates) && Genuine(w, c, w.served[c].settings)
  }

  ghost predicate CacheGood(w: World) {
    forall c | c in w.cache :: GoodEntry(w, c, w.cache[c]) && (c in w.served ==> NotOlder(w.cache[c], w.served[c]))
  }

  ghost predicate ReadersGood(w: World) {
    forall tid | tid in w.pcs && w.pcs[tid].Reading? :: GoodReader(w, w.pcs[tid])
  }

  ghost predicate Inv(w: World) {
    LockHeld(w) && Accounted(w) && ServedKnown(w) && CacheGood(w) && ReadersGood(w)
  }

  ghost predicate Initial(w: World) {
    w.cache == map[] && w.lock.None? && w.pcs == map[] && w.earlier == map[] && w.acked == {} && w.served == map[]
  }

  /* Events that touch neither the store nor its history. */

  ghost predicate SameStore(w: World, w': World) {
    w'.tables == w.tables && w'.settings == w.settings && w'.earlier == w.earlier && w'.acked == w.acked
  }

  lemma SameStoreParts(w: World, w': World)
    requires SameStore(w, w')
    ensures forall c :: Commits(w', c) == Commits(w, c)
    ensures forall c, p :: Genuine(w', c, p) == Genuine(w, c, p)
    ensures forall c, seen :: AfterAcked(w', c, seen) == AfterAcked(w, c, seen)
  {
  }

  predicate IsReaderEvent(e: Event) { !e.CommitOp? && !e.CommitSettings? && !e.Invalidate? }

  /** What a reader's event does to the thread table and the lock. */
  lemma ReaderShape(w: World, e: Event, ttl: real)
    requires Enabled(w, e, ttl) && IsReaderEvent(e)
    ensures var w' := Apply(w, e, ttl);
      && SameStore(w, w')
      && !PcOf(w, e.tid).Committed? && !PcOf(w', e.tid).Committed?
      && w'.pcs == w.pcs[e.tid := PcOf(w', e.tid)]
      && (if PcOf(w', e.tid).Idle? then w'.lock.None?
          else if e.Enter? then w'.lock == Some(e.tid) && w.lock.None?
          else w'.lock == w.lock && (PcOf(w, e.tid).Entered? || PcOf(w, e.tid).Reading?))
  {
    hide IsHit;
    hide Assembled;
    hide Commits;
    hide Marked;
    hide ViewOf;
  }

  lemma ReaderKeepsLock(w: World, e: Event, ttl: real)
    requires LockHeld(w) && Enabled(w, e, ttl) && IsReaderEvent(e)
    ensures LockHeld(Apply(w, e, ttl))
  {
    hide Apply;
    ReaderShape(w, e, ttl);
    LeavingHeldLock(w, e, ttl);
  }

  /** A thread that leaves `snapshot` was the one holding the lock. */
  lemma LeavingHeldLock(w: World, e: Event, ttl: real)
    requires LockHeld(w) && Enabled(w, e, ttl) && IsReaderEvent(e)
    ensures !e.Enter? ==> w.lock == Some(e.tid) && !PcOf(w, e.tid).Idle?
  {
  }

  lemma ReaderKeepsAccounts(w: World, e: Event, ttl: real)
    requires Accounted(w) && Enabled(w, e, ttl) && IsReaderEvent(e)
    ensures Accounted(Apply(w, e, ttl))
  {
    hide Apply;
    hide Enabled;
    hide ViewOf;
    var w' := Apply(w, e, ttl);
    ReaderShape(w, e, ttl);
    forall c, n | Owed(w, c, n) ensures Owed(w', c, n) {
      var tid :| tid in w.pcs && w.pcs[tid] == Committed(c, n);
      assert w'.pcs[tid] == Committed(c, n);
    }
  }

  /** Returning a snapshot of class c stores it and remembers it as served. */
  lemma ReturnShape(w: World, e: Event, ttl: real)
    requires Enabled(w, e, ttl) && IsReaderEvent(e)
    ensures var w', r := Apply(w, e, ttl), Returned(w, e, ttl);
      if r.Some? then
        && (PcOf(w, e.tid).Entered? || PcOf(w, e.tid).Reading?) && PcOf(w', e.tid).Idle?
        && w'.cache == w.cache[PcOf(w, e.tid).classId := r.value]
        && w'.served == w.served[PcOf(w, e.tid).classId := r.value]
      else w'.cache == w.cache && w'.served == w.served
  {
    hide ViewOf;
  }

  /** Everything handed out is made of the class's own views, each at least as new
      as every acknowledged commit and as what was handed out before. */
  lemma ReturnedGood(w: World, e: Event, ttl: real)
    requires Inv(w) && Enabled(w, e, ttl) && Returned(w, e, ttl).Some?
    ensures var c, entry := PcOf(w, e.tid).classId, Returned(w, e, ttl).value;
      GoodEntry(w, c, entry) && (c in w.served ==> NotOlder(entry, w.served[c]))
  {
    hide ViewOf;
    hide Genuine;
    hide AfterAcked;
    hide Accounted;
    var pc := PcOf(w, e.tid);
    if e.Publish? {
      assert GoodReader(w, pc);
    } else {
      assert GoodEntry(w, pc.classId, w.cache[pc.classId]);
    }
  }

  lemma SameStoreEntry(w: World, w': World, c: string, e: Entry)
    requires SameStore(w, w') && GoodEntry(w, c, e)
    ensures GoodEntry(w', c, e)
  {
    SameStoreParts(w, w');
  }

  lemma ReaderKeepsCache(w: World, e: Event, ttl: real)
    requires Inv(w) && Enabled(w, e, ttl) && IsReaderEvent(e)
    ensures CacheGood(Apply(w, e, ttl)) && ServedKnown(Apply(w, e, ttl))
  {
    hide Apply;
    hide Enabled;
    hide GoodEntry;
    hide Genuine;
    hide Returned;
    var w' := Apply(w, e, ttl);
    ReaderShape(w, e, ttl);
    ReturnShape(w, e, ttl);
    if Returned(w, e, ttl).Some? {
      ReturnedGood(w, e, ttl);
      GoodEntryGenuine(w, PcOf(w, e.tid).classId, Returned(w, e, ttl).value);
    }
    SameStoreParts(w, w');
    forall c | c in w'.cache ensures GoodEntry(w', c, w'.cache[c]) {
      SameStoreEntry(w, w', c, w'.cache[c]);
    }
  }

  lemma GoodEntryGenuine(w: World, c: string, e: Entry)
    requires GoodEntry(w, c, e)
    ensures Genuine(w, c, e.baselines) && Genuine(w, c, e.updates) && Genuine(w, c, e.settings)
  {
  }

  /** The only thread that can be reading after a reader's event is its own. */
  lemma OtherThreadsNotReading(w: World, e: Event, ttl: real, tid: nat)
    requires LockHeld(w) && Enabled(w, e, ttl) && IsReaderEvent(e) && tid != e.tid && tid in Apply(w, e, ttl).pcs
    ensures !Apply(w, e, ttl).pcs[tid].Reading?
  {
    hide Apply;
    ReaderShape(w, e, ttl);
    LeavingHeldLock(w, e, ttl);
  }

  /** A read made now sees every commit so far. */
  lemma ReadNowIsGood(w: World, c: string)
    requires Accounted(w)
    ensures GoodPart(w, c, Part(ViewOf(w, c), Commits(w, c)))
  {
  }

  function ReadNow(w: World, c: string): Option<Part> { Some(Part(ViewOf(w, c), Commits(w, c))) }

  /** A thread still reading after its own event holds the parts it held before and
      at most one read made now. */
  lemma ReadingShape(w: World, e: Event, ttl: real)
    requires Enabled(w, e, ttl) && IsReaderEvent(e) && PcOf(Apply(w, e, ttl), e.tid).Reading?
    ensures var pc, pc', w' := PcOf(w, e.tid), PcOf(Apply(w, e, ttl), e.tid), Apply(w, e, ttl);
      && w'.served == w.served
      && (pc'.baselines == None || pc'.baselines == ReadNow(w, pc'.classId)
          || (pc.Reading? && pc.classId == pc'.classId && pc'.baselines == pc.baselines))
      && (pc'.updates == None || pc'.updates == ReadNow(w, pc'.classId)
          || (pc.Reading? && pc.classId == pc'.classId && pc'.updates == pc.updates))
      && (pc'.settings == None || pc'.settings == ReadNow(w, pc'.classId)
          || (pc.Reading? && pc.classId == pc'.classId && pc'.settings == pc.settings))
  {
    hide ViewOf;
  }

  lemma ReaderKeepsReader(w: World, e: Event, ttl: real)
    requires Inv(w) && Enabled(w, e, ttl) && IsReaderEvent(e) && PcOf(Apply(w, e, ttl), e.tid).Reading?
    ensures GoodReader(Apply(w, e, ttl), PcOf(Apply(w, e, ttl), e.tid))
  {
    hide Apply;
    hide Enabled;
    hide Genuine;
    hide AfterAcked;
    hide Accounted;
    hide CacheGood;
    var pc, pc' := PcOf(w, e.tid), PcOf(Apply(w, e, ttl), e.tid);
    ReaderShape(w, e, ttl);
    ReadingShape(w, e, ttl);
    SameStoreParts(w, Apply(w, e, ttl));
    ReadNowIsGood(w, pc'.classId);
    ServedGenuine(w, pc'.classId);
    assert pc.Reading? ==> GoodReader(w, pc);
  }

  lemma ServedGenuine(w: World, c: string)
    requires ServedKnown(w)
    ensures c in w.served ==> w.served[c].baselines.seen <= Commits(w, c) && w.served[c].updates.seen <= Commits(w, c)
                              && w.served[c].settings.seen <= Commits(w, c)
  {
    assert c in w.served ==> Genuine(w, c, w.served[c].baselines);
  }

  lemma ReaderKeepsInv(w: World, e: Event, ttl: real)
    requires Inv(w) && Enabled(w, e, ttl) && IsReaderEvent(e)
    ensures Inv(Apply(w, e, ttl))
  {
    hide Apply;
    hide CacheGood;
    hide Accounted;
    hide ServedKnown;
    ReaderKeepsLock(w, e, ttl);
    ReaderKeepsAccounts(w, e, ttl);
    ReaderKeepsCache(w, e, ttl);
    if PcOf(Apply(w, e, ttl), e.tid).Reading? {
      ReaderKeepsReader(w, e, ttl);
    }
    forall tid | tid in Apply(w, e, ttl).pcs && tid != e.tid ensures !Apply(w, e, ttl).pcs[tid].Reading? {
      OtherThreadsNotReading(w, e, ttl, tid);
    }
  }

  /* Writers. */

  predicate IsCommit(e: Event) { e.CommitOp? || e.CommitSettings? }

  function CommitClass(e: Event): string
    requires IsCommit(e)
  {
    if e.CommitOp? then e.op.classId else e.classId
  }

  lemma CommitOtherView(w: World, e: Event, ttl: real, d: string)
    requires Enabled(w, e, ttl) && IsCommit(e) && d != CommitClass(e)
    ensures ViewOf(Apply(w, e, ttl), d) == ViewOf(w, d)
  {
    hide Step;
    hide Where;
    if e.CommitOp? {
      OtherClassesUntouched(w.tables, e.op, d);
    }
  }

  /** A commit changes the view of its own class only, and remembers the old one. */
  lemma CommitShape(w: World, e: Event, ttl: real)
    requires Enabled(w, e, ttl) && IsCommit(e)
    ensures var w', c := Apply(w, e, ttl), CommitClass(e);
      && PcOf(w, e.tid).Idle? && w'.pcs == w.pcs[e.tid := Committed(c, Commits(w, c) + 1)]
      && w'.cache == w.cache && w'.lock == w.lock && w'.acked == w.acked && w'.served == w.served
      && w'.earlier == w.earlier[c := Earlier(w, c) + [ViewOf(w, c)]]
      && forall d | d != c :: ViewOf(w', d) == ViewOf(w, d)
  {
    hide Step;
    hide ViewOf;
    forall d | d != CommitClass(e) ensures ViewOf(Apply(w, e, ttl), d) == ViewOf(w, d) {
      CommitOtherView(w, e, ttl, d);
    }
  }

  lemma CommitKeepsGenuine(w: World, e: Event, ttl: real, d: string, p: Part)
    requires Enabled(w, e, ttl) && IsCommit(e) && Genuine(w, d, p)
    ensures Genuine(Apply(w, e, ttl), d, p)
  {
    hide Apply;
    hide Enabled;
    hide ViewOf;
    CommitShape(w, e, ttl);
  }

  lemma CommitKeepsEntry(w: World, e: Event, ttl: real, d: string, entry: Entry)
    requires Enabled(w, e, ttl) && IsCommit(e) && GoodEntry(w, d, entry)
    ensures GoodEntry(Apply(w, e, ttl), d, entry)
  {
    hide Apply;
    hide Enabled;
    hide Genuine;
    CommitShape(w, e, ttl);
    CommitKeepsGenuine(w, e, ttl, d, entry.baselines);
    CommitKeepsGenuine(w, e, ttl, d, entry.updates);
    CommitKeepsGenuine(w, e, ttl, d, entry.settings);
  }

  lemma CommitKeepsAccounts(w: World, e: Event, ttl: real)
    requires Accounted(w) && Enabled(w, e, ttl) && IsCommit(e)
    ensures Accounted(Apply(w, e, ttl))
  {
    hide Apply;
    hide Enabled;
    hide ViewOf;
    var w', c := Apply(w, e, ttl), CommitClass(e);
    CommitShape(w, e, ttl);
    assert forall d :: Commits(w', d) == if d == c then Commits(w, d) + 1 else Commits(w, d);
    assert Owed(w', c, Commits(w, c) + 1) by {
      assert w'.pcs[e.tid] == Committed(c, Commits(w, c) + 1);
    }
    forall d, n | Owed(w, d, n) ensures Owed(w', d, n) {
      var tid :| tid in w.pcs && w.pcs[tid] == Committed(d, n);
      assert w'.pcs[tid] == Committed(d, n);
    }
  }

  lemma CommitKeepsReader(w: World, e: Event, ttl: real, pc: Pc)
    requires Enabled(w, e, ttl) && IsCommit(e) && pc.Reading? && GoodReader(w, pc)
    ensures GoodReader(Apply(w, e, ttl), pc)
  {
    hide Apply;
    hide Enabled;
    hide Genuine;
    CommitShape(w, e, ttl);
    if pc.baselines.Some? { CommitKeepsGenuine(w, e, ttl, pc.classId, pc.baselines.value); }
    if pc.updates.Some? { CommitKeepsGenuine(w, e, ttl, pc.classId, pc.updates.value); }
    if pc.settings.Some? { CommitKeepsGenuine(w, e, ttl, pc.classId, pc.settings.value); }
  }

  lemma CommitKeepsInv(w: World, e: Event, ttl: real)
    requires Inv(w) && Enabled(w, e, ttl) && IsCommit(e)
    ensures Inv(Apply(w, e, ttl))
  {
    hide Apply;
    hide Enabled;
    hide Accounted;
    hide GoodEntry;
    hide GoodReader;
    hide Genuine;
    hide ViewOf;
    var w' := Apply(w, e, ttl);
    CommitShape(w, e, ttl);
    CommitKeepsAccounts(w, e, ttl);
    forall d | d in w'.cache ensures GoodEntry(w', d, w'.cache[d]) {
      CommitKeepsEntry(w, e, ttl, d, w.cache[d]);
    }
    forall d | d in w'.served
      ensures Genuine(w', d, w'.served[d].baselines) && Genuine(w', d, w'.served[d].updates) && Genuine(w', d, w'.served[d].settings)
    {
      CommitKeepsGenuine(w, e, ttl, d, w.served[d].baselines);
      CommitKeepsGenuine(w, e, ttl, d, w.served[d].updates);
      CommitKeepsGenuine(w, e, ttl, d, w.served[d].settings);
    }
    forall tid | tid in w'.pcs && w'.pcs[tid].Reading? ensures GoodReader(w', w'.pcs[tid]) {
      CommitKeepsReader(w, e, ttl, w.pcs[tid]);
    }
  }

  lemma InvalidateKeepsAccounts(w: World, e: Event, ttl: real)
    requires Accounted(w) && Enabled(w, e, ttl) && e.Invalidate?
    ensures Accounted(Apply(w, e, ttl))
  {
    hide ViewOf;
    var w', pc := Apply(w, e, ttl), PcOf(w, e.tid);
    forall c, n | 1 <= n <= Commits(w, c) ensures (c, n) in w'.acked || Owed(w', c, n) {
      if (c, n) !in w'.acked {
        var tid :| tid in w.pcs && w.pcs[tid] == Committed(c, n);
        assert w'.pcs[tid] == Committed(c, n);
      }
    }
  }

  lemma InvalidateShape(w: World, e: Event, ttl: real)
    requires Enabled(w, e, ttl) && e.Invalidate?
    ensures var w', pc := Apply(w, e, ttl), PcOf(w, e.tid);
      && w.lock.None? && w'.lock.None? && w'.pcs == w.pcs[e.tid := Idle]
      && w'.cache == w.cache - {pc.classId} && w'.served == w.served
      && w'.acked == w.acked + {(pc.classId, pc.number)}
      && w'.tables == w.tables && w'.settings == w.settings && w'.earlier == w.earlier
  {
  }

  lemma InvalidateKeepsGenuine(w: World, e: Event, ttl: real)
    requires Enabled(w, e, ttl) && e.Invalidate?
    ensures forall c, p :: Genuine(w, c, p) ==> Genuine(Apply(w, e, ttl), c, p)
    ensures forall c, seen :: c != PcOf(w, e.tid).classId && AfterAcked(w, c, seen) ==> AfterAcked(Apply(w, e, ttl), c, seen)
  {
    hide Apply;
    InvalidateShape(w, e, ttl);
  }

  /** With the lock free nobody is part-way through a read, so dropping the cached
      snapshot removes every copy that might miss the commit. */
  lemma InvalidateKeepsInv(w: World, e: Event, ttl: real)
    requires Inv(w) && Enabled(w, e, ttl) && e.Invalidate?
    ensures Inv(Apply(w, e, ttl))
  {
    hide Apply;
    hide Enabled;
    hide Genuine;
    hide AfterAcked;
    hide Accounted;
    InvalidateShape(w, e, ttl);
    InvalidateKeepsAccounts(w, e, ttl);
    InvalidateKeepsGenuine(w, e, ttl);
    var w' := Apply(w, e, ttl);
    forall c | c in w'.cache ensures GoodEntry(w', c, w'.cache[c]) {
      assert GoodEntry(w, c, w.cache[c]);
    }
    assert forall tid | tid in w'.pcs :: !w'.pcs[tid].Reading?;
  }

  /* Whole runs. */

  ghost predicate Possible(w: World, es: seq<Event>, ttl: real)
    decreases |es|
  {
    es != [] ==> Enabled(w, es[0], ttl) && Possible(Apply(w, es[0], ttl), es[1..], ttl)
  }

  ghost function After(w: World, es: seq<Event>, ttl: real): World
    requires Possible(w, es, ttl)
    decreases |es|
  {
    if es == [] then w else After(Apply(w, es[0], ttl), es[1..], ttl)
  }

  lemma StepKeepsInv(w: World, e: Event, ttl: real)
    requires Inv(w) && Enabled(w, e, ttl)
    ensures Inv(Apply(w, e, ttl)) && w.acked <= Apply(w, e, ttl).acked
  {
    hide Inv;
    hide ViewOf;
    hide Step;
    if IsCommit(e) {
      CommitKeepsInv(w, e, ttl);
    } else if e.Invalidate? {
      InvalidateKeepsInv(w, e, ttl);
    } else {
      ReaderKeepsInv(w, e, ttl);
    }
  }

  /** However the threads interleave, the invariant holds and nothing that was
      acknowledged is forgotten. */
  lemma {:induction false} RunKeepsInv(w: World, es: seq<Event>, ttl: real)
    requires Inv(w) && Possible(w, es, ttl)
    ensures Inv(After(w, es, ttl)) && w.acked <= After(w, es, ttl).acked
    decreases |es|
  {
    hide Inv;
    hide Apply;
    hide Enabled;
    if es != [] {
      StepKeepsInv(w, es[0], ttl);
      RunKeepsInv(Apply(w, es[0], ttl), es[1..], ttl);
    }
  }

  ghost predicate Reachable(w: World, ttl: real) {
    exists w0, es :: Initial(w0) && Possible(w0, es, ttl) && After(w0, es, ttl) == w
  }

  lemma ReachableInv(w: World, ttl: real)
    requires Reachable(w, ttl)
    ensures Inv(w)
  {
    hide Inv;
    var w0, es :| Initial(w0) && Possible(w0, es, ttl) && After(w0, es, ttl) == w;
    InitialInv(w0);
    RunKeepsInv(w0, es, ttl);
  }

  lemma InitialInv(w: World)
    requires Initial(w)
    ensures Inv(w)
  {
  }

  lemma CoherentUnlessOwed(w: World, c: string)
    requires Inv(w) && c in w.cache && forall n :: !Owed(w, c, n)
    ensures View(w.cache[c].snap.baselines, w.cache[c].snap.updates, w.cache[c].snap.settings) == ViewOf(w, c)
  {
    hide ViewOf;
    var e, v := w.cache[c], Commits(w, c);
    assert GoodEntry(w, c, e);
    assert v > 0 ==> (c, v) in w.acked;
  }

  /** Coherence: when a cached snapshot differs from the store, some writer of its
      class has committed and not yet invalidated. */
  lemma Coherence(w: World, c: string, ttl: real)
    requires Reachable(w, ttl) && c in w.cache
    requires View(w.cache[c].snap.baselines, w.cache[c].snap.updates, w.cache[c].snap.settings) != ViewOf(w, c)
    ensures exists n :: Owed(w, c, n)
  {
    ReachableInv(w, ttl);
    if forall n :: !Owed(w, c, n) {
      CoherentUnlessOwed(w, c);
    }
  }

  /** Read-your-writes: once the invalidation of commit n has returned, whatever is
      handed out later, from the cache, read afresh or marked stale, is made of views
      the class had after commit n or a later one. */
  lemma ReadYourWrites(w: World, es: seq<Event>, e: Event, ttl: real, c: string, n: nat)
    requires Reachable(w, ttl) && (c, n) in w.acked
    requires Possible(w, es, ttl) && Enabled(After(w, es, ttl), e, ttl)
    requires Returned(After(w, es, ttl), e, ttl).Some? && PcOf(After(w, es, ttl), e.tid).classId == c
    ensures var w', r := After(w, es, ttl), Returned(After(w, es, ttl), e, ttl).value;
      && n <= r.baselines.seen <= Commits(w', c) && r.snap.baselines == Past(w', c, r.baselines.seen).baselines
      && n <= r.updates.seen <= Commits(w', c) && r.snap.updates == Past(w', c, r.updates.seen).updates
      && n <= r.settings.seen <= Commits(w', c) && r.snap.settings == Past(w', c, r.settings.seen).settings
  {
    hide ViewOf;
    hide Returned;
    hide Enabled;
    hide Inv;
    ReachableInv(w, ttl);
    RunKeepsInv(w, es, ttl);
    ReturnedGood(After(w, es, ttl), e, ttl);
  }

  /** What a class was last served with only gets newer. */
  lemma ServedGrows(w: World, e: Event, ttl: real, c: string)
    requires Inv(w) && Enabled(w, e, ttl) && c in w.served
    ensures var w' := Apply(w, e, ttl); c in w'.served && NotOlder(w'.served[c], w.served[c])
  {
    hide ViewOf;
    hide Inv;
    hide Apply;
    hide Enabled;
    hide Returned;
    if IsCommit(e) {
      CommitShape(w, e, ttl);
    } else if e.Invalidate? {
      InvalidateShape(w, e, ttl);
    } else {
      ReturnShape(w, e, ttl);
      if Returned(w, e, ttl).Some? {
        ReturnedGood(w, e, ttl);
      }
    }
  }

  lemma {:induction false} ServedGrowsOverRun(w: World, es: seq<Event>, ttl: real, c: string)
    requires Inv(w) && Possible(w, es, ttl) && c in w.served
    ensures var w' := After(w, es, ttl); c in w'.served && NotOlder(w'.served[c], w.served[c])
    decreases |es|
  {
    hide Inv;
    hide Apply;
    hide Enabled;
    if es != [] {
      StepKeepsInv(w, es[0], ttl);
      ServedGrows(w, es[0], ttl, c);
      ServedGrowsOverRun(Apply(w, es[0], ttl), es[1..], ttl, c);
    }
  }

  /** Monotone reads: of two calls for a class, with any run between their returns,
      the later one hands out no older part than the earlier one did. */
  lemma MonotoneReads(w: World, first: Event, es: seq<Event>, second: Event, ttl: real)
    requires Reachable(w, ttl) && Enabled(w, first, ttl) && Returned(w, first, ttl).Some?
    requires Possible(Apply(w, first, ttl), es, ttl) && Enabled(After(Apply(w, first, ttl), es, ttl), second, ttl)
    requires Returned(After(Apply(w, first, ttl), es, ttl), second, ttl).Some?
    requires PcOf(After(Apply(w, first, ttl), es, ttl), second.tid).classId == PcOf(w, first.tid).classId
    ensures NotOlder(Returned(After(Apply(w, first, ttl), es, ttl), second, ttl).value, Returned(w, first, ttl).value)
  {
    hide Inv;
    hide Reachable;
    hide Possible;
    hide After;
    hide GoodEntry;
    var c, w1 := PcOf(w, first.tid).classId, Apply(w, first, ttl);
    var w2 := After(w1, es, ttl);
    ReachableInv(w, ttl);
    ReturnShape(w, first, ttl);
    StepKeepsInv(w, first, ttl);
    RunKeepsInv(w1, es, ttl);
    ServedGrowsOverRun(w1, es, ttl, c);
    ReturnedGood(w2, second, ttl);
  }

  /* How far the parts of one snapshot can be apart. */

  ghost predicate InOrder(a: Option<Part>, b: Option<Part>) {
    a.Some? && b.Some? ==> a.value.seen <= b.value.seen
  }

  /** The parts are read, and so versioned, in the order baselines, updates, settings. */
  ghost predicate EntryOrdered(e: Entry) { e.baselines.seen <= e.updates.seen <= e.settings.seen }

  ghost predicate Ordered(w: World) {
    && (forall c | c in w.cache :: EntryOrdered(w.cache[c]))
    && (forall tid | tid in w.pcs && w.pcs[tid].Reading? ::
          InOrder(w.pcs[tid].baselines, w.pcs[tid].updates) && InOrder(w.pcs[tid].updates, w.pcs[tid].settings)
          && (w.pcs[tid].baselines.None? ==> w.pcs[tid].updates.None?)
          && (w.pcs[tid].updates.None? ==> w.pcs[tid].settings.None?))
  }

  lemma ReturnedOrdered(w: World, e: Event, ttl: real)
    requires Ordered(w) && Enabled(w, e, ttl) && Returned(w, e, ttl).Some?
    ensures EntryOrdered(Returned(w, e, ttl).value)
  {
    hide ViewOf;
    var pc := PcOf(w, e.tid);
    assert pc.Reading? ==> e.tid in w.pcs;
  }

  /** The thread's own place after a reader's event, if it is still reading. */
  lemma ReaderStaysOrdered(w: World, e: Event, ttl: real)
    requires Inv(w) && Ordered(w) && Enabled(w, e, ttl) && IsReaderEvent(e) && PcOf(Apply(w, e, ttl), e.tid).Reading?
    ensures var pc := PcOf(Apply(w, e, ttl), e.tid);
      && InOrder(pc.baselines, pc.updates) && InOrder(pc.updates, pc.settings)
      && (pc.baselines.None? ==> pc.updates.None?) && (pc.updates.None? ==> pc.settings.None?)
  {
    hide ViewOf;
    hide Accounted;
    hide CacheGood;
    hide ServedKnown;
    hide LockHeld;
    hide AfterAcked;
    var pc := PcOf(w, e.tid);
    if pc.Reading? {
      assert e.tid in w.pcs && GoodReader(w, pc);
    }
  }

  lemma StepKeepsOrdered(w: World, e: Event, ttl: real)
    requires Inv(w) && Ordered(w) && Enabled(w, e, ttl)
    ensures Ordered(Apply(w, e, ttl))
  {
    hide ViewOf;
    hide Inv;
    hide Apply;
    hide Enabled;
    hide Returned;
    hide InOrder;
    hide EntryOrdered;
    if IsCommit(e) {
      CommitShape(w, e, ttl);
    } else if e.Invalidate? {
      InvalidateShape(w, e, ttl);
    } else {
      ReaderShape(w, e, ttl);
      ReturnShape(w, e, ttl);
      if Returned(w, e, ttl).Some? {
        ReturnedOrdered(w, e, ttl);
      }
      if PcOf(Apply(w, e, ttl), e.tid).Reading? {
        ReaderStaysOrdered(w, e, ttl);
      }
    }
  }

  lemma {:induction false} RunKeepsOrdered(w: World, es: seq<Event>, ttl: real)
    requires Inv(w) && Ordered(w) && Possible(w, es, ttl)
    ensures Ordered(After(w, es, ttl))
    decreases |es|
  {
    hide Inv;
    hide Apply;
    hide Enabled;
    hide Ordered;
    if es != [] {
      StepKeepsInv(w, es[0], ttl);
      StepKeepsOrdered(w, es[0], ttl);
      RunKeepsOrdered(Apply(w, es[0], ttl), es[1..], ttl);
    }
  }

  /** How torn a snapshot can be: its parts are genuine views of versions in reading
      order, and if no commit of the class fell between the first read and the last,
      it is one single view. */
  lemma SnapshotIsNearlyOneView(w: World, e: Event, ttl: real)
    requires Reachable(w, ttl) && Enabled(w, e, ttl) && Returned(w, e, ttl).Some?
    ensures var c, r := PcOf(w, e.tid).classId, Returned(w, e, ttl).value;
      && r.baselines.seen <= r.updates.seen <= r.settings.seen <= Commits(w, c)
      && r.snap.baselines == Past(w, c, r.baselines.seen).baselines
      && r.snap.updates == Past(w, c, r.updates.seen).updates
      && r.snap.settings == Past(w, c, r.settings.seen).settings
      && (r.baselines.seen == r.settings.seen ==>
            View(r.snap.baselines, r.snap.updates, r.snap.settings) == Past(w, c, r.baselines.seen))
  {
    hide Inv;
    hide Returned;
    hide Enabled;
    hide Ordered;
    hide Past;
    ReachableInv(w, ttl);
    ReachableOrdered(w, ttl);
    ReturnedGood(w, e, ttl);
    ReturnedOrdered(w, e, ttl);
  }

  lemma ReachableOrdered(w: World, ttl: real)
    requires Reachable(w, ttl)
    ensures Ordered(w)
  {
    hide Inv;
    var w0, es :| Initial(w0) && Possible(w0, es, ttl) && After(w0, es, ttl) == w;
    InitialInv(w0);
    RunKeepsOrdered(w0, es, ttl);
  }

  /* The exception in coherence is real. */

  lemma {:induction false} RunOneMore(w: World, es: seq<Event>, e: Event, ttl: real)
    requires Possible(w, es, ttl) && Enabled(After(w, es, ttl), e, ttl)
    ensures Possible(w, es + [e], ttl) && After(w, es + [e], ttl) == Apply(After(w, es, ttl), e, ttl)
    decreases |es|
  {
    hide Apply;
    hide Enabled;
    if es == [] {
      assert ([] + [e])[1..] == [] && Possible(Apply(w, e, ttl), [], ttl);
    } else {
      assert (es + [e])[1..] == es[1..] + [e];
      RunOneMore(Apply(w, es[0], ttl), es[1..], e, ttl);
    }
  }

  lemma ReachableStep(w: World, e: Event, ttl: real)
    requires Reachable(w, ttl) && Enabled(w, e, ttl)
    ensures Reachable(Apply(w, e, ttl), ttl)
  {
    hide Apply;
    hide Enabled;
    hide Initial;
    var w0, es :| Initial(w0) && Possible(w0, es, ttl) && After(w0, es, ttl) == w;
    RunOneMore(w0, es, e, ttl);
  }

  /** A read of an empty service, up to its last step. */
  lemma ReadUpToSettings(w0: World, c: string, data: SourceData, ttl: real) returns (w: World)
    requires Reachable(w0, ttl) && Initial(w0)
    ensures Reachable(w, ttl) && w.lock == Some(1) && w.tables == w0.tables && w.settings == w0.settings
    ensures w.cache == map[] && w.earlier == map[] && w.pcs.Keys == {1}
    ensures PcOf(w, 1) == Reading(c, Some(data), Some(Part(ViewOf(w0, c), 0)), Some(Part(ViewOf(w0, c), 0)), Some(Part(ViewOf(w0, c), 0)))
  {
    hide Reachable;
    hide ViewOf;
    var w1 := Advance(w0, Enter(1, c, false), ttl);
    var w2 := Advance(w1, Miss(1, 0.0), ttl);
    var w3 := Advance(w2, ReadSource(1, data), ttl);
    var w4 := Advance(w3, ReadBaselines(1), ttl);
    ViewByStore(w0, w3, c);
    var w5 := Advance(w4, ReadUpdates(1), ttl);
    ViewByStore(w0, w4, c);
    w := Advance(w5, ReadSettings(1), ttl);
    ViewByStore(w0, w5, c);
  }

  lemma Advance(w: World, e: Event, ttl: real) returns (w': World)
    requires Reachable(w, ttl) && Enabled(w, e, ttl)
    ensures w' == Apply(w, e, ttl) && Reachable(w', ttl)
  {
    w' := Apply(w, e, ttl);
    ReachableStep(w, e, ttl);
  }

  lemma ViewByStore(w: World, w': World, c: string)
    requires w.tables == w'.tables && w.settings == w'.settings
    ensures ViewOf(w, c) == ViewOf(w', c)
  {
  }

  /** A writer that commits while a reader is about to publish leaves a cached
      snapshot with the old settings, until it invalidates. */
  lemma StaleUntilInvalidated(w0: World, c: string, data: SourceData, value: Settings, ttl: real)
    requires Initial(w0) && value != SettingsOf(w0, c)
    ensures exists w :: Reachable(w, ttl) && c in w.cache && w.cache[c].snap.settings != SettingsOf(w, c) && Owed(w, c, 1)
  {
    hide Reachable;
    hide ViewOf;
    StartReachable(w0, ttl);
    var w1 := ReadUpToSettings(w0, c, data, ttl);
    var w2 := Advance(w1, CommitSettings(2, c, value), ttl);
    var w3 := Advance(w2, Publish(1, 0.0), ttl);
    assert w3.pcs[2] == Committed(c, 1);
    ViewSettings(w0, c);
  }

  lemma ViewSettings(w: World, c: string)
    ensures ViewOf(w, c).settings == SettingsOf(w, c)
  {
  }

  lemma StartReachable(w: World, ttl: real)
    requires Initial(w)
    ensures Reachable(w, ttl)
  {
    assert Possible(w, [], ttl) && After(w, [], ttl) == w;
  }
}
