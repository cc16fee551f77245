/** The league service's snapshot cache: what one call does while it holds the
    service lock. The clock readings and the outcome of reading source and store
    come in as parameters. */
module SnapshotCache {
  import opened Wrappers
  import opened Commitments

  /** League settings of one class. */
  datatype Settings = Settings(typeWeights: map<string, real>, rate: real, cap: real, tieBreakers: seq<string>,
                               weights: Option<map<string, real>>)

  /** Students, criteria, weeks, entries and data-check issues, as read from the
      data source. */
  datatype SourceData = SourceData(contents: string)

  datatype Snapshot = Snapshot(at: real, classId: string, source: SourceData, baselines: seq<BaselineRow>,
                               updates: seq<UpdateRow>, settings: Settings, stale: bool)

  datatype ReadOutcome = Fresh(snap: Snapshot) | Unavailable | UnknownClass

  datatype ServiceError = SourceUnavailable | ClassNotFound | RefreshTooSoon(wait: int)

  type Reply = Result<Snapshot, ServiceError>

  /** The service's dictionaries; lastRead is a history variable: the last snapshot
      of each class that was actually read. */
  datatype Memory = Memory(cache: map<string, Snapshot>, lastRefresh: map<string, real>, lastRead: map<string, Snapshot>)

  function Lookup<T>(m: map<string, T>, c: string): Option<T> { if c in m then Some(m[c]) else None }

  predicate IsHit(cached: Option<Snapshot>, force: bool, now: real, ttl: real) {
    cached.Some? && !force && now - cached.value.at < ttl
  }

  function Reread(m: Memory, c: string, read: ReadOutcome): (Memory, Reply) {
    match read
    case Fresh(s) => (m.(cache := m.cache[c := s], lastRead := m.lastRead[c := s]), Ok(s))
    case UnknownClass => (m, Err(ClassNotFound))
    case Unavailable =>
      if c !in m.cache then (m, Err(SourceUnavailable))
      else
        var marked := m.cache[c].(stale := true);
        (m.(cache := m.cache[c := marked]), Ok(marked))
  }

  function Got(m: Memory, c: string, force: bool, now: real, ttl: real, read: ReadOutcome): (Memory, Reply) {
    if IsHit(Lookup(m.cache, c), force, now, ttl) then (m, Ok(m.cache[c])) else Reread(m, c, read)
  }

  /** The least integer not below x. */
  function Ceil(x: real): int { -(-x).Floor }

  predicate Admits(m: Memory, c: string, now: real, cooldown: real) {
    c in m.lastRefresh ==> now - m.lastRefresh[c] >= cooldown
  }

  function Refreshed(m: Memory, c: string, now: real, cooldown: real, read: ReadOutcome): (Memory, Reply) {
    if Admits(m, c, now, cooldown) then Reread(m.(lastRefresh := m.lastRefresh[c := now]), c, read)
    else (m, Err(RefreshTooSoon(Ceil(cooldown - (now - m.lastRefresh[c])))))
  }

  function Dropped(m: Memory, c: string): Memory { m.(cache := m.cache - {c}) }

  /** What is cached is the last snapshot read, possibly marked stale. */
  ghost predicate Faithful(m: Memory) {
    && (forall c | c in m.cache :: c in m.lastRead && m.cache[c].(stale := false) == m.lastRead[c])
    && (forall c | c in m.lastRead :: !m.lastRead[c].stale)
  }

  /** What a call must answer and leave behind, in terms of the dictionaries: a young
      enough snapshot is handed out as it is; else what was read is cached and handed out;
      else, if the source is down, the cached snapshot is handed out marked stale and stays
      cached; and only an unknown class, or a source down with nothing cached, is an error.
      No other class is touched. */
  ghost predicate Answers(before: Memory, after: Memory, r: Reply, c: string, young: bool, read: ReadOutcome) {
    && after.lastRefresh == before.lastRefresh
    && (forall d | d != c :: (d in after.cache <==> d in before.cache) && (d in before.cache ==> after.cache[d] == before.cache[d]))
    && (young ==> c in before.cache && r == Ok(before.cache[c]) && after == before)
    && (!young && read.Fresh? ==> r == Ok(read.snap) && c in after.cache && after.cache[c] == read.snap)
    && (!young && read.UnknownClass? ==> r == Err(ClassNotFound) && after == before)
    && (!young && read.Unavailable? && c !in before.cache ==> r == Err(SourceUnavailable) && after == before)
    && (!young && read.Unavailable? && c in before.cache ==>
          r == Ok(before.cache[c].(stale := true)) && c in after.cache && after.cache[c] == before.cache[c].(stale := true))
  }

  /** A cached snapshot that an unforced call need not read again. */
  ghost predicate Young(m: Memory, c: string, force: bool, now: real, ttl: real) {
    c in m.cache && !force && now - m.cache[c].at < ttl
  }

  lemma GotAnswers(m: Memory, c: string, force: bool, now: real, ttl: real, read: ReadOutcome)
    ensures var (after, r) := Got(m, c, force, now, ttl, read); Answers(m, after, r, c, Young(m, c, force, now, ttl), read)
  {
  }

  /** A refresh inside the cooldown changes nothing and says how long to wait; any other is
      recorded and reads anew, however young the cached snapshot is. */
  lemma RefreshedAnswers(m: Memory, c: string, now: real, cooldown: real, read: ReadOutcome)
    ensures var (after, r) := Refreshed(m, c, now, cooldown, read);
      if c in m.lastRefresh && now - m.lastRefresh[c] < cooldown then after == m && r.Err? && r.error.RefreshTooSoon?
      else Answers(m.(lastRefresh := m.lastRefresh[c := now]), after, r, c, false, read)
  {
  }

  class LeagueService {
    const ttl: real
    const cooldown: real
    var cache: map<string, Snapshot>
    var lastRefresh: map<string, real>
    ghost var lastRead: map<string, Snapshot>

    constructor (ttl: real, cooldown: real)
      ensures this.ttl == ttl && this.cooldown == cooldown
      ensures State() == Memory(map[], map[], map[]) && Faithful(State())
    {
      this.ttl, this.cooldown := ttl, cooldown;
      cache, lastRefresh, lastRead := map[], map[], map[];
    }

    ghost function State(): Memory
      reads this
    {
      Memory(cache, lastRefresh, lastRead)
    }

    /** An unforced snapshot is unmarked and younger than the TTL, or just read, or
        marked stale with the contents of the last successful read. */
    method GetSnapshot(c: string, force: bool, now: real, read: ReadOutcome) returns (r: Reply)
      requires Faithful(State()) && (read.Fresh? ==> !read.snap.stale)
      modifies this`cache, this`lastRead
      ensures Faithful(State()) && (State(), r) == Got(old(State()), c, force, now, ttl, read)
      ensures Answers(old(State()), State(), r, c, old(Young(State(), c, force, now, ttl)), read)
      ensures r.Ok? ==>
        || (!r.value.stale && !force && now - r.value.at < ttl)
        || (read == Fresh(r.value))
        || (r.value.stale && c in lastRead && r.value.(stale := false) == lastRead[c])
    {
      var cached := Lookup(cache, c);
      if IsHit(cached, force, now, ttl) {
        return Ok(cached.value);
      }
      match read
      case UnknownClass =>
        return Err(ClassNotFound);
      case Unavailable =>
        if cached.None? {
          return Err(SourceUnavailable);
        }
        var marked := cached.value.(stale := true);
        cache := cache[c := marked];
        return Ok(marked);
      case Fresh(snap) =>
        cache := cache[c := snap];
        lastRead := lastRead[c := snap];
        return Ok(snap);
    }

    method Invalidate(c: string)
      requires Faithful(State())
      modifies this`cache
      ensures Faithful(State()) && State() == Dropped(old(State()), c) && c !in cache
      ensures forall d | d != c :: (d in cache <==> d in old(cache)) && (d in cache ==> cache[d] == old(cache)[d])
    {
      cache := cache - {c};
    }

    method Refresh(c: string, now: real, read: ReadOutcome) returns (r: Reply)
      requires Faithful(State()) && (read.Fresh? ==> !read.snap.stale)
      modifies this
      ensures Faithful(State()) && (State(), r) == Refreshed(old(State()), c, now, cooldown, read)
      ensures if c in old(lastRefresh) && now - old(lastRefresh)[c] < cooldown then State() == old(State()) && r.Err? && r.error.RefreshTooSoon?
              else Answers(old(State()).(lastRefresh := old(lastRefresh)[c := now]), State(), r, c, false, read)
    {
      RefreshedAnswers(State(), c, now, cooldown, read);
      if c in lastRefresh && now - lastRefresh[c] < cooldown {
        return Err(RefreshTooSoon(Ceil(cooldown - (now - lastRefresh[c]))));
      }
      lastRefresh := lastRefresh[c := now];
      r := GetSnapshot(c, true, now, read);
    }
  }

  /* Runs of calls, in the order in which they held the lock. */

  datatype Call =
    | Get(classId: string, force: bool, now: real, read: ReadOutcome)
    | Drop(classId: string)
    | DoRefresh(classId: string, now: real, read: ReadOutcome)

  function Serve(m: Memory, call: Call, ttl: real, cooldown: real): Memory {
    match call
    case Get(c, force, now, read) => Got(m, c, force, now, ttl, read).0
    case Drop(c) => Dropped(m, c)
    case DoRefresh(c, now, read) => Refreshed(m, c, now, cooldown, read).0
  }

  function ServeAll(m: Memory, calls: seq<Call>, ttl: real, cooldown: real): Memory
    decreases |calls|
  {
    if calls == [] then m else ServeAll(Serve(m, calls[0], ttl, cooldown), calls[1..], ttl, cooldown)
  }

  /** A read that reaches the source produces an unmarked snapshot. */
  predicate ReadsUnmarked(call: Call) {
    !call.Drop? && call.read.Fresh? ==> !call.read.snap.stale
  }

  lemma ServeKeepsFaithful(m: Memory, call: Call, ttl: real, cooldown: real)
    requires Faithful(m) && ReadsUnmarked(call)
    ensures Faithful(Serve(m, call, ttl, cooldown))
  {
  }

  lemma GotIsFresh(m: Memory, c: string, force: bool, now: real, ttl: real, read: ReadOutcome)
    requires Faithful(m) && (read.Fresh? ==> !read.snap.stale)
    ensures var (after, r) := Got(m, c, force, now, ttl, read);
      && Faithful(after)
      && (r.Ok? ==>
        || (!r.value.stale && !force && now - r.value.at < ttl)
        || read == Fresh(r.value)
        || (r.value.stale && c in m.lastRead && r.value.(stale := false) == m.lastRead[c]))
  {
  }

  /** After any run of calls, what an unforced call returns is unmarked and younger
      than the TTL, or just read, or marked stale with the last contents read. */
  lemma {:induction false} RunsServeFresh(m: Memory, calls: seq<Call>, c: string, now: real, read: ReadOutcome,
                                          ttl: real, cooldown: real)
    requires Faithful(m) && (forall i | 0 <= i < |calls| :: ReadsUnmarked(calls[i]))
    requires read.Fresh? ==> !read.snap.stale
    ensures var m' := ServeAll(m, calls, ttl, cooldown);
      var (after, r) := Got(m', c, false, now, ttl, read);
      && Faithful(m') && Faithful(after) && Answers(m', after, r, c, Young(m', c, false, now, ttl), read)
      && (r.Ok? ==>
        || (!r.value.stale && now - r.value.at < ttl)
        || read == Fresh(r.value)
        || (r.value.stale && c in m'.lastRead && r.value.(stale := false) == m'.lastRead[c]))
    decreases |calls|
  {
    if calls == [] {
      GotIsFresh(m, c, false, now, ttl, read);
    } else {
      hide Got;
      hide Faithful;
      assert ReadsUnmarked(calls[0]);
      ServeKeepsFaithful(m, calls[0], ttl, cooldown);
      RunsServeFresh(Serve(m, calls[0], ttl, cooldown), calls[1..], c, now, read, ttl, cooldown);
    }
  }

  /** The clock readings of the refreshes of class c that a run admits. */
  function AdmittedAt(m: Memory, calls: seq<Call>, c: string, ttl: real, cooldown: real): seq<real>
    decreases |calls|
  {
    if calls == [] then []
    else
      var call := calls[0];
      (if call.DoRefresh? && call.classId == c && Admits(m, c, call.now, cooldown) then [call.now] else [])
      + AdmittedAt(Serve(m, call, ttl, cooldown), calls[1..], c, ttl, cooldown)
  }

  /** Each time is at least gap after the one before it, the first one after `before`. */
  ghost predicate Spaced(before: Option<real>, times: seq<real>, gap: real)
    decreases |times|
  {
    times != [] ==> (before.Some? ==> times[0] - before.value >= gap) && Spaced(Some(times[0]), times[1..], gap)
  }

  /** Whatever else happens, admitted refreshes of a class are a cooldown apart. */
  lemma {:induction false} CooldownHolds(m: Memory, calls: seq<Call>, c: string, ttl: real, cooldown: real)
    ensures Spaced(Lookup(m.lastRefresh, c), AdmittedAt(m, calls, c, ttl, cooldown), cooldown)
    decreases |calls|
  {
    if calls != [] {
      var call := calls[0];
      var m1 := Serve(m, call, ttl, cooldown);
      var rest := AdmittedAt(m1, calls[1..], c, ttl, cooldown);
      CooldownHolds(m1, calls[1..], c, ttl, cooldown);
      if call.DoRefresh? && call.classId == c && Admits(m, c, call.now, cooldown) {
        assert ([call.now] + rest)[1..] == rest;
      } else {
        assert [] + rest == rest;
      }
    }
  }

  /** The reported wait is the least number of whole seconds after which the gate
      opens, and it is never zero. */
  lemma WaitIsExact(m: Memory, c: string, now: real, cooldown: real, read: ReadOutcome, n: int)
    requires !Admits(m, c, now, cooldown)
    ensures Refreshed(m, c, now, cooldown, read).1.Err? && Refreshed(m, c, now, cooldown, read).1.error.RefreshTooSoon?
    ensures var wait := Refreshed(m, c, now, cooldown, read).1.error.wait;
      wait >= 1 && (Admits(m, c, now + n as real, cooldown) <==> n >= wait)
  {
    var x := cooldown - (now - m.lastRefresh[c]);
    var f := (-x).Floor;
    assert f as real <= -x < f as real + 1.0;
    if n >= -f {
      assert n as real >= (-f) as real;
    } else {
      assert n as real <= (-f - 1) as real;
    }
  }
}
