/** Filling the tables at start-up: a seed row is inserted only if no row has its id. */
module Seeding {
  import opened Wrappers
  import opened Identifiers
  import opened Commitments
  import opened Ledger
  import opened UndoStacks
  import opened LedgerInvariant
  import opened LedgerLaws

  datatype SeedClass = SeedClass(classId: string, baselines: seq<BaselineRow>, updates: seq<UpdateRow>)

  predicate HasId<T>(rows: seq<T>, idOf: T -> string, id: string) {
    exists i :: 0 <= i < |rows| && idOf(rows[i]) == id
  }

  function Insert<T>(table: seq<T>, row: T, idOf: T -> string): seq<T> {
    if HasId(table, idOf, idOf(row)) then table else table + [row]
  }

  function InsertAll<T>(table: seq<T>, rows: seq<T>, idOf: T -> string): seq<T>
    decreases |rows|
  {
    if rows == [] then table else InsertAll(Insert(table, rows[0], idOf), rows[1..], idOf)
  }

  function BaselineId(): BaselineRow -> string { (b: BaselineRow) => b.id }

  function UpdateId(): UpdateRow -> string { (u: UpdateRow) => u.id }

  function OwnBaselines(s: SeedClass): seq<BaselineRow> {
    seq(|s.baselines|, i requires 0 <= i < |s.baselines| => s.baselines[i].(classId := s.classId))
  }

  function OwnUpdates(s: SeedClass): seq<UpdateRow> {
    seq(|s.updates|, i requires 0 <= i < |s.updates| => s.updates[i].(classId := s.classId, supersededBy := None))
  }

  function AllBaselines(seed: seq<SeedClass>): seq<BaselineRow> {
    if seed == [] then [] else OwnBaselines(seed[0]) + AllBaselines(seed[1..])
  }

  function AllUpdates(seed: seq<SeedClass>): seq<UpdateRow> {
    if seed == [] then [] else OwnUpdates(seed[0]) + AllUpdates(seed[1..])
  }

  /** The tables after seeding. */
  function Seeded(t: Tables, seed: seq<SeedClass>): Tables {
    t.(baselines := InsertAll(t.baselines, AllBaselines(seed), BaselineId()),
       updates := InsertAll(t.updates, AllUpdates(seed), UpdateId()))
  }

  lemma {:induction false} InsertAllConcat<T>(table: seq<T>, rows: seq<T>, more: seq<T>, idOf: T -> string)
    ensures InsertAll(table, rows + more, idOf) == InsertAll(InsertAll(table, rows, idOf), more, idOf)
    decreases |rows|
  {
    if rows == [] {
      assert rows + more == more;
    } else {
      assert (rows + more)[1..] == rows[1..] + more;
      InsertAllConcat(Insert(table, rows[0], idOf), rows[1..], more, idOf);
    }
  }

  /** Inserting keeps the table as a prefix, adds only seed rows, keeps ids
      distinct and leaves every seed id present. */
  lemma {:induction false} InsertAllFacts<T>(table: seq<T>, rows: seq<T>, idOf: T -> string)
    ensures var r := InsertAll(table, rows, idOf);
      && table <= r
      && (forall i | |table| <= i < |r| :: r[i] in rows)
      && (forall i | 0 <= i < |rows| :: HasId(r, idOf, idOf(rows[i])))
      && ((forall i, j | 0 <= i < j < |table| :: idOf(table[i]) != idOf(table[j]))
          ==> forall i, j | 0 <= i < j < |r| :: idOf(r[i]) != idOf(r[j]))
    decreases |rows|
  {
    if rows != [] {
      var next := Insert(table, rows[0], idOf);
      InsertAllFacts(next, rows[1..], idOf);
      var r := InsertAll(table, rows, idOf);
      assert HasId(next, idOf, idOf(rows[0])) by {
        if next != table {
          assert idOf(next[|table|]) == idOf(rows[0]);
        }
      }
      var w :| 0 <= w < |next| && idOf(next[w]) == idOf(rows[0]);
      assert r[w] == next[w];
      forall i | 0 <= i < |rows| ensures HasId(r, idOf, idOf(rows[i])) {
        if i > 0 {
          assert rows[i] == rows[1..][i - 1];
        }
      }
    }
  }

  lemma {:induction false} InsertAllPresent<T>(table: seq<T>, rows: seq<T>, idOf: T -> string)
    requires forall i | 0 <= i < |rows| :: HasId(table, idOf, idOf(rows[i]))
    ensures InsertAll(table, rows, idOf) == table
    decreases |rows|
  {
    if rows != [] {
      assert HasId(table, idOf, idOf(rows[0]));
      forall i | 0 <= i < |rows[1..]| ensures HasId(table, idOf, idOf(rows[1..][i])) {
        assert rows[1..][i] == rows[i + 1];
      }
      InsertAllPresent(table, rows[1..], idOf);
    }
  }

  lemma {:induction false} InSeed(seed: seq<SeedClass>, s: SeedClass)
    requires s in seed
    ensures forall b | b in s.baselines :: b.(classId := s.classId) in AllBaselines(seed)
    ensures forall u | u in s.updates :: u.(classId := s.classId, supersededBy := None) in AllUpdates(seed)
    decreases |seed|
  {
    if s != seed[0] {
      InSeed(seed[1..], s);
    } else {
      forall b | b in s.baselines ensures b.(classId := s.classId) in OwnBaselines(s) {
        var i :| 0 <= i < |s.baselines| && s.baselines[i] == b;
        assert OwnBaselines(s)[i] == b.(classId := s.classId);
      }
      forall u | u in s.updates ensures u.(classId := s.classId, supersededBy := None) in OwnUpdates(s) {
        var i :| 0 <= i < |s.updates| && s.updates[i] == u;
        assert OwnUpdates(s)[i] == u.(classId := s.classId, supersededBy := None);
      }
    }
  }

  /** A row whose id no other seed row has is in the table, unless the table had that id. */
  lemma InsertedOnce<T>(table: seq<T>, rows: seq<T>, row: T, idOf: T -> string)
    requires row in rows && forall r | r in rows && idOf(r) == idOf(row) :: r == row
    ensures row in InsertAll(table, rows, idOf) || HasId(table, idOf, idOf(row))
  {
    InsertAllFacts(table, rows, idOf);
    var i :| 0 <= i < |rows| && rows[i] == row;
    var r := InsertAll(table, rows, idOf);
    var j :| 0 <= j < |r| && idOf(r[j]) == idOf(row);
    if j < |table| {
      assert r[j] == table[j];
    }
  }

  /** Seeding keeps every row of the tables and inserts every seed row, with its columns
      and under its class, whose id is used once in the seed and not in the tables; weekly
      rows start without a pointer. */
  lemma SeedRowsArrive(t: Tables, seed: seq<SeedClass>, s: SeedClass)
    requires s in seed
    ensures var t' := Seeded(t, seed); t.baselines <= t'.baselines && t.updates <= t'.updates && t'.log == t.log
    ensures forall b | b in s.baselines && (forall d | d in AllBaselines(seed) && d.id == b.id :: d == b.(classId := s.classId)) ::
      b.(classId := s.classId) in Seeded(t, seed).baselines || HasId(t.baselines, BaselineId(), b.id)
    ensures forall u | u in s.updates && (forall v | v in AllUpdates(seed) && v.id == u.id :: v == u.(classId := s.classId, supersededBy := None)) ::
      u.(classId := s.classId, supersededBy := None) in Seeded(t, seed).updates || HasId(t.updates, UpdateId(), u.id)
  {
    hide AllBaselines;
    hide AllUpdates;
    hide HasId;
    InSeed(seed, s);
    InsertAllFacts(t.baselines, AllBaselines(seed), BaselineId());
    InsertAllFacts(t.updates, AllUpdates(seed), UpdateId());
    forall b | b in s.baselines && (forall d | d in AllBaselines(seed) && d.id == b.id :: d == b.(classId := s.classId))
      ensures b.(classId := s.classId) in Seeded(t, seed).baselines || HasId(t.baselines, BaselineId(), b.id)
    {
      InsertedOnce(t.baselines, AllBaselines(seed), b.(classId := s.classId), BaselineId());
    }
    forall u | u in s.updates && (forall v | v in AllUpdates(seed) && v.id == u.id :: v == u.(classId := s.classId, supersededBy := None))
      ensures u.(classId := s.classId, supersededBy := None) in Seeded(t, seed).updates || HasId(t.updates, UpdateId(), u.id)
    {
      InsertedOnce(t.updates, AllUpdates(seed), u.(classId := s.classId, supersededBy := None), UpdateId());
    }
  }

  /** A usable seed: ids are of the generated form, and no two rows claim the same
      approved student or the same unreversed student-week. */
  ghost predicate GoodSeed(seed: seq<SeedClass>) {
    && (forall b | b in AllBaselines(seed) :: OfForm(b.id, b.classId + BASELINE_TAG))
    && (forall b, d | b in AllBaselines(seed) && d in AllBaselines(seed) && b.id != d.id ::
          !(b.status == Approved && d.status == Approved && b.classId == d.classId && b.studentId == d.studentId))
    && (forall u | u in AllUpdates(seed) :: OfForm(u.id, u.classId + UPDATE_TAG))
    && (forall u, v | u in AllUpdates(seed) && v in AllUpdates(seed) && u.id != v.id ::
          !(u.reversedAt.None? && v.reversedAt.None? && KeyOf(u) == KeyOf(v)))
  }

  lemma {:induction false} SeedRowsPointNowhere(seed: seq<SeedClass>)
    ensures forall u | u in AllUpdates(seed) :: u.supersededBy.None?
  {
    if seed != [] {
      SeedRowsPointNowhere(seed[1..]);
    }
  }

  lemma TwoInPile(us: seq<UpdateRow>, k: Key) returns (i: int, j: int)
    requires |Pile(us, k)| > 1
    ensures 0 <= i < j < |us| && Counts(us[i], k) && Counts(us[j], k)
  {
    PileAscends(us, k);
    i, j := Pile(us, k)[0], Pile(us, k)[1];
  }

  lemma AtMostOneCounts(us: seq<UpdateRow>, k: Key)
    requires forall i, j | 0 <= i < j < |us| :: !(Counts(us[i], k) && Counts(us[j], k))
    ensures |Pile(us, k)| <= 1
  {
    if |Pile(us, k)| > 1 {
      var i, j := TwoInPile(us, k);
      assert false;
    }
  }

  lemma SeededBaselinesGood(seed: seq<SeedClass>)
    requires GoodSeed(seed)
    ensures GoodBaselines(InsertAll([], AllBaselines(seed), BaselineId()))
  {
    var bs := InsertAll([], AllBaselines(seed), BaselineId());
    InsertAllFacts([], AllBaselines(seed), BaselineId());
    forall i, j | 0 <= i < j < |bs| ensures bs[i].id != bs[j].id {
      assert BaselineId()(bs[i]) != BaselineId()(bs[j]);
    }
  }

  lemma SeededUpdatesGood(seed: seq<SeedClass>)
    requires GoodSeed(seed)
    ensures GoodUpdates(InsertAll([], AllUpdates(seed), UpdateId()))
  {
    var us := InsertAll([], AllUpdates(seed), UpdateId());
    InsertAllFacts([], AllUpdates(seed), UpdateId());
    SeedRowsPointNowhere(seed);
    forall i, j | 0 <= i < j < |us| ensures us[i].id != us[j].id {
      assert UpdateId()(us[i]) != UpdateId()(us[j]);
    }
    forall k ensures Chained(us, k) {
      AtMostOneCounts(us, k);
    }
  }

  /** A database filled from a good seed satisfies the ledger's invariant. */
  lemma SeededIsValid(seed: seq<SeedClass>)
    requires GoodSeed(seed)
    ensures Valid(Seeded(Tables([], [], []), seed))
  {
    SeededBaselinesGood(seed);
    SeededUpdatesGood(seed);
  }

  lemma LaterKeepsIds(t: Tables, t': Tables, id: string)
    requires Later(t, t')
    ensures HasId(t.baselines, BaselineId(), id) ==> HasId(t'.baselines, BaselineId(), id)
    ensures HasId(t.updates, UpdateId(), id) ==> HasId(t'.updates, UpdateId(), id)
  {
    if i :| 0 <= i < |t.baselines| && BaselineId()(t.baselines[i]) == id {
      assert BaselineLater(t.baselines[i], t'.baselines[i]);
      assert BaselineId()(t'.baselines[i]) == id;
    }
    if i :| 0 <= i < |t.updates| && UpdateId()(t.updates[i]) == id {
      assert UpdateLater(t.updates[i], t'.updates[i]);
      assert UpdateId()(t'.updates[i]) == id;
    }
  }

  /** Restarting with the same seed, after any run, changes neither table. */
  lemma ReseedingChangesNothing(seed: seq<SeedClass>, ops: seq<Op>)
    requires GoodSeed(seed)
    ensures var t := Run(Seeded(Tables([], [], []), seed), ops);
      Valid(t) && Seeded(t, seed) == t
  {
    var t0 := Seeded(Tables([], [], []), seed);
    var t := Run(t0, ops);
    SeededIsValid(seed);
    RunAges(t0, ops);
    var bs, us := AllBaselines(seed), AllUpdates(seed);
    InsertAllFacts([], bs, BaselineId());
    InsertAllFacts([], us, UpdateId());
    forall i | 0 <= i < |bs| ensures HasId(t.baselines, BaselineId(), BaselineId()(bs[i])) {
      LaterKeepsIds(t0, t, BaselineId()(bs[i]));
    }
    forall i | 0 <= i < |us| ensures HasId(t.updates, UpdateId(), UpdateId()(us[i])) {
      LaterKeepsIds(t0, t, UpdateId()(us[i]));
    }
    InsertAllPresent(t.baselines, bs, BaselineId());
    InsertAllPresent(t.updates, us, UpdateId());
  }
}
