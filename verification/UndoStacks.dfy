/** The flat table of weekly updates with its pointers is a family of undo
    stacks, one per student-week: a save pushes, a reversal pops. */
module UndoStacks {
  import opened Wrappers
  import opened Sequences
  import opened Commitments
  import opened Ledger

  predicate Counts(u: UpdateRow, k: Key) { KeyOf(u) == k && u.reversedAt.None? }

  /** The unreversed rows of a student-week, oldest first. */
  function Pile(us: seq<UpdateRow>, k: Key): (p: seq<int>)
    ensures forall m | 0 <= m < |p| :: 0 <= p[m] < |us| && Counts(us[p[m]], k)
  {
    if us == [] then []
    else
      var n := |us| - 1;
      Pile(us[..n], k) + (if Counts(us[n], k) then [n] else [])
  }

  ghost predicate Ascending(p: seq<int>) { forall m, n | 0 <= m < n < |p| :: p[m] < p[n] }

  lemma {:induction false} PileAscends(us: seq<UpdateRow>, k: Key)
    ensures Ascending(Pile(us, k))
  {
    if us != [] {
      PileAscends(us[..|us| - 1], k);
      AscendingAppend(Pile(us[..|us| - 1], k), |us| - 1);
    }
  }

  lemma AscendingAppend(p: seq<int>, n: int)
    requires Ascending(p) && forall m | 0 <= m < |p| :: p[m] < n
    ensures Ascending(p + [n])
  {
  }

  /** Where an unreversed row sits in its pile. */
  lemma {:induction false} PileFinds(us: seq<UpdateRow>, k: Key, i: nat) returns (m: nat)
    requires i < |us| && Counts(us[i], k)
    ensures m < |Pile(us, k)| && Pile(us, k)[m] == i
  {
    var n := |us| - 1;
    if i == n {
      m := |Pile(us, k)| - 1;
    } else {
      m := PileFinds(us[..n], k, i);
    }
  }

  ghost predicate DistinctIds(us: seq<UpdateRow>) {
    forall i, j | 0 <= i < j < |us| :: us[i].id != us[j].id
  }

  /** Each row points at the next one up; the top points nowhere. */
  ghost predicate Chain(us: seq<UpdateRow>, p: seq<int>)
    requires forall m | 0 <= m < |p| :: 0 <= p[m] < |us|
  {
    && (forall m, n | 0 <= m < n < |p| && n == m + 1 :: us[p[m]].supersededBy == Some(us[p[n]].id))
    && (p != [] ==> us[p[|p| - 1]].supersededBy.None?)
  }

  ghost predicate Chained(us: seq<UpdateRow>, k: Key) { Chain(us, Pile(us, k)) }

  ghost predicate Linked(us: seq<UpdateRow>) {
    && DistinctIds(us)
    && (forall i | 0 <= i < |us| && us[i].reversedAt.Some? :: us[i].supersededBy.None?)
    && (forall k :: Chained(us, k))
  }

  /** The hours of the unreversed rows, oldest first. */
  function Stack(us: seq<UpdateRow>, k: Key): (s: seq<Hours>) {
    var p := Pile(us, k);
    seq(|p|, m requires 0 <= m < |p| => us[p[m]].hours)
  }

  lemma {:induction false} PileSame(us: seq<UpdateRow>, vs: seq<UpdateRow>, k: Key)
    requires |us| == |vs|
    requires forall i | 0 <= i < |us| :: Counts(us[i], k) == Counts(vs[i], k)
    ensures Pile(us, k) == Pile(vs, k)
  {
    if us != [] {
      PileSame(us[..|us| - 1], vs[..|us| - 1], k);
    }
  }

  lemma PileAppend(us: seq<UpdateRow>, u: UpdateRow, k: Key)
    ensures Pile(us + [u], k) == Pile(us, k) + (if Counts(u, k) then [|us|] else [])
  {
    assert (us + [u])[..|us|] == us;
  }

  /** Taking the newest row of a pile out of the count drops the last index. */
  lemma {:induction false} PileDropLast(us: seq<UpdateRow>, vs: seq<UpdateRow>, k: Key, i: nat)
    requires |us| == |vs| && i < |us| && Counts(us[i], k) && !Counts(vs[i], k)
    requires forall j | 0 <= j < |us| && j != i :: Counts(us[j], k) == Counts(vs[j], k)
    requires forall j | i < j < |us| :: !Counts(us[j], k)
    ensures Pile(us, k) == Pile(vs, k) + [i]
  {
    hide Counts;
    var n := |us| - 1;
    if i == n {
      PileSame(us[..n], vs[..n], k);
    } else {
      PileDropLast(us[..n], vs[..n], k, i);
    }
  }

  lemma BelowTopPoints(us: seq<UpdateRow>, p: seq<int>, m: nat)
    requires forall m | 0 <= m < |p| :: 0 <= p[m] < |us|
    requires Chain(us, p) && m + 1 < |p|
    ensures us[p[m]].supersededBy == Some(us[p[m + 1]].id)
  {
  }

  /** A live row is the last of its pile, and every non-empty pile ends in one. */
  lemma LiveRowIsTop(us: seq<UpdateRow>, k: Key, i: nat)
    requires Linked(us) && i < |us| && Counts(us[i], k) && us[i].supersededBy.None?
    ensures Pile(us, k) != [] && i == Pile(us, k)[|Pile(us, k)| - 1]
  {
    var p := Pile(us, k);
    assert Chained(us, k);
    var m := PileFinds(us, k, i);
    if m + 1 < |p| {
      BelowTopPoints(us, p, m);
    }
  }

  lemma TopRowIsLive(us: seq<UpdateRow>, k: Key)
    requires Linked(us) && Pile(us, k) != []
    ensures var i := Pile(us, k)[|Pile(us, k)| - 1]; Counts(us[i], k) && us[i].supersededBy.None?
  {
    hide Pile;
    assert Chained(us, k);
  }

  lemma LiveIsTop(us: seq<UpdateRow>, k: Key)
    requires Linked(us)
    ensures FirstIndex(us, LiveWeekly(k)) == if Pile(us, k) == [] then None else Some(Pile(us, k)[|Pile(us, k)| - 1])
  {
    var found := FirstIndex(us, LiveWeekly(k));
    if Pile(us, k) != [] {
      TopRowIsLive(us, k);
      assert LiveWeekly(k)(us[Pile(us, k)[|Pile(us, k)| - 1]]);
    }
    if found.Some? {
      LiveRowIsTop(us, k, found.value);
    }
  }

  /** Pushing a row on a chain: the old top points at it. */
  lemma ChainPush(us: seq<UpdateRow>, p: seq<int>, row: UpdateRow)
    requires forall m | 0 <= m < |p| :: 0 <= p[m] < |us|
    requires Ascending(p) && Chain(us, p) && row.supersededBy.None?
    ensures p == [] ==> Chain(us + [row], [|us|])
    ensures p != [] ==> Chain(us[p[|p| - 1] := us[p[|p| - 1]].(supersededBy := Some(row.id))] + [row], p + [|us|])
  {
  }

  /** Popping a chain: the row below the top points nowhere again. */
  lemma ChainPop(us: seq<UpdateRow>, vs: seq<UpdateRow>, p: seq<int>)
    requires p != [] && |us| == |vs| && forall m | 0 <= m < |p| :: 0 <= p[m] < |us|
    requires Ascending(p) && Chain(us, p)
    requires forall j | 0 <= j < |us| :: us[j].id == vs[j].id
    requires forall j | 0 <= j < |us| && j != p[|p| - 1] && (|p| == 1 || j != p[|p| - 2]) :: us[j] == vs[j]
    requires |p| > 1 ==> vs[p[|p| - 2]].supersededBy.None?
    ensures Chain(vs, p[..|p| - 1])
  {
  }

  /** A chain none of whose rows changed its pointer is still a chain. */
  lemma ChainSame(us: seq<UpdateRow>, vs: seq<UpdateRow>, p: seq<int>)
    requires |us| <= |vs| && forall m | 0 <= m < |p| :: 0 <= p[m] < |us|
    requires Chain(us, p)
    requires forall m | 0 <= m < |p| :: us[p[m]].id == vs[p[m]].id && us[p[m]].supersededBy == vs[p[m]].supersededBy
    ensures Chain(vs, p)
  {
  }

  /** How a save moves the pile of student-week k. */
  lemma PushPile(us: seq<UpdateRow>, row: UpdateRow, k: Key)
    requires Linked(us)
    requires row.reversedAt.None? && row.supersededBy.None?
    ensures Pile(Pushed(us, row), k) == Pile(us, k) + (if KeyOf(row) == k then [|us|] else [])
  {
    var vs := Pushed(us, row);
    PileSame(us, vs[..|us|], k);
    assert vs == vs[..|us|] + [row];
    PileAppend(vs[..|us|], row, k);
  }

  lemma PushOwnChain(us: seq<UpdateRow>, row: UpdateRow)
    requires Linked(us)
    requires row.reversedAt.None? && row.supersededBy.None?
    ensures Chained(Pushed(us, row), KeyOf(row))
  {
    hide FirstIndex;
    hide Pile;
    var k := KeyOf(row);
    PushPile(us, row, k);
    LiveIsTop(us, k);
    assert Chained(us, k);
    PileAscends(us, k);
    ChainPush(us, Pile(us, k), row);
  }

  /** A save changes no existing row of another student-week. */
  lemma PushTouchesOwnKey(us: seq<UpdateRow>, row: UpdateRow, j: nat)
    requires j < |us| && KeyOf(us[j]) != KeyOf(row)
    ensures Pushed(us, row)[j] == us[j]
  {
  }

  lemma PushOtherChain(us: seq<UpdateRow>, row: UpdateRow, k: Key)
    requires Linked(us) && k != KeyOf(row)
    requires row.reversedAt.None? && row.supersededBy.None?
    ensures Chained(Pushed(us, row), k)
  {
    var vs, p := Pushed(us, row), Pile(us, k);
    assert Pile(vs, k) == p by {
      PushPile(us, row, k);
    }
    assert Chain(us, p) by {
      assert Chained(us, k);
    }
    forall m | 0 <= m < |p| ensures us[p[m]] == vs[p[m]] {
      PushTouchesOwnKey(us, row, p[m]);
    }
    ChainSame(us, vs, p);
  }

  /** A save keeps the hours of every row. */
  lemma PushKeepsHours(us: seq<UpdateRow>, row: UpdateRow)
    ensures var vs := Pushed(us, row);
      |vs| == |us| + 1 && vs[|us|] == row && forall j | 0 <= j < |us| :: vs[j].hours == us[j].hours
  {
    hide FirstIndex;
  }

  lemma PushStack(us: seq<UpdateRow>, row: UpdateRow, k: Key)
    requires Linked(us)
    requires row.reversedAt.None? && row.supersededBy.None?
    ensures Stack(Pushed(us, row), k) == Stack(us, k) + (if KeyOf(row) == k then [row.hours] else [])
  {
    hide Pile;
    hide Pushed;
    hide Linked;
    PushPile(us, row, k);
    PushKeepsHours(us, row);
  }

  /** A save appends one row, pushes it on its own stack and keeps the links. */
  lemma PushStep(us: seq<UpdateRow>, row: UpdateRow)
    requires Linked(us)
    requires row.reversedAt.None? && row.supersededBy.None?
    requires forall i | 0 <= i < |us| :: us[i].id != row.id
    ensures Linked(Pushed(us, row))
    ensures forall k :: Stack(Pushed(us, row), k) == Stack(us, k) + (if KeyOf(row) == k then [row.hours] else [])
  {
    hide FirstIndex;
    hide Pile;
    hide Stack;
    hide Chain;
    var vs := Pushed(us, row);
    LiveIsTop(us, KeyOf(row));
    forall k
      ensures Chained(vs, k)
      ensures Stack(vs, k) == Stack(us, k) + (if KeyOf(row) == k then [row.hours] else [])
    {
      if k == KeyOf(row) {
        PushOwnChain(us, row);
      } else {
        PushOtherChain(us, row, k);
      }
      PushStack(us, row, k);
    }
  }

  /** A row with a pointer is unreversed, and in its pile the row pointed at comes next. */
  lemma PointsUp(us: seq<UpdateRow>, j: nat) returns (m: nat)
    requires Linked(us) && j < |us| && us[j].supersededBy.Some?
    ensures Counts(us[j], KeyOf(us[j]))
    ensures var p := Pile(us, KeyOf(us[j])); m + 1 < |p| && p[m] == j && us[p[m + 1]].id == us[j].supersededBy.value
  {
    hide Pile;
    hide DistinctIds;
    var p := Pile(us, KeyOf(us[j]));
    assert us[j].reversedAt.None? && Chained(us, KeyOf(us[j]));
    hide Linked;
    m := PileFinds(us, KeyOf(us[j]), j);
    if m + 1 < |p| {
      BelowTopPoints(us, p, m);
    }
  }

  /** No pointer dangles and none names a reversed row: what a row points at is a later
      unreversed row of the same student-week. */
  lemma PointersLeadUp(us: seq<UpdateRow>, j: nat) returns (i: nat)
    requires Linked(us) && j < |us| && us[j].supersededBy.Some?
    ensures j < i < |us| && us[i].id == us[j].supersededBy.value
    ensures us[i].reversedAt.None? && us[j].reversedAt.None? && KeyOf(us[i]) == KeyOf(us[j])
  {
    hide Pile;
    hide Linked;
    var p := Pile(us, KeyOf(us[j]));
    var m := PointsUp(us, j);
    PileAscends(us, KeyOf(us[j]));
    i := p[m + 1];
  }

  /** A row pointing at row i is the one just below it in its pile. */
  lemma PointerSource(us: seq<UpdateRow>, j: nat, i: nat) returns (m: nat)
    requires Linked(us) && i < |us| && j < |us| && us[j].supersededBy == Some(us[i].id)
    ensures var p := Pile(us, KeyOf(us[i])); m + 1 < |p| && p[m] == j && p[m + 1] == i
  {
    hide Pile;
    hide Chained;
    m := PointsUp(us, j);
    var up := Pile(us, KeyOf(us[j]))[m + 1];
    SameId(us, up, i);
    assert Counts(us[up], KeyOf(us[j]));
  }

  lemma SameId(us: seq<UpdateRow>, i: nat, j: nat)
    requires DistinctIds(us) && i < |us| && j < |us| && us[i].id == us[j].id
    ensures i == j
  {
  }

  lemma TopOnce(p: seq<int>, m: nat)
    requires Ascending(p) && m < |p| && p[m] == p[|p| - 1]
    ensures m == |p| - 1
  {
  }

  lemma PointerIsBelowTop(us: seq<UpdateRow>, j: nat, i: nat)
    requires Linked(us) && i < |us| && j < |us| && us[j].supersededBy == Some(us[i].id)
    requires var p := Pile(us, KeyOf(us[i])); p != [] && p[|p| - 1] == i
    ensures var p := Pile(us, KeyOf(us[i])); |p| > 1 && j == p[|p| - 2]
  {
    hide Linked;
    hide Pile;
    var p := Pile(us, KeyOf(us[i]));
    PileAscends(us, KeyOf(us[i]));
    var m := PointerSource(us, j, i);
    TopOnce(p, m + 1);
  }

  /** The row a reversal un-hides is the next one down, if there is one. */
  lemma ReplacedIsNextDown(us: seq<UpdateRow>, i: nat, who: string, at: Stamp)
    requires Linked(us) && i < |us| && us[i].reversedAt.None? && us[i].supersededBy.None?
    ensures var p := Pile(us, KeyOf(us[i])); p != [] && p[|p| - 1] == i
    ensures var p := Pile(us, KeyOf(us[i]));
      FirstIndex(MarkReversed(us, i, who, at), PointsAt(us[i].classId, us[i].id))
      == if |p| == 1 then None else Some(p[|p| - 2])
  {
    var k := KeyOf(us[i]);
    LiveRowIsTop(us, k, i);
    var p := Pile(us, k);
    PileAscends(us, k);
    var q := PointsAt(us[i].classId, us[i].id);
    var us1 := MarkReversed(us, i, who, at);
    assert Chained(us, k);
    hide Linked;
    hide Pile;
    hide FirstIndex;
    forall j | 0 <= j < |us| && q(us1[j])
      ensures |p| > 1 && j == p[|p| - 2]
    {
      PointerIsBelowTop(us, j, i);
    }
    if |p| > 1 {
      BelowTopPoints(us, p, |p| - 2);
      FirstIndexOnly(us1, q, p[|p| - 2]);
    }
  }

  lemma NothingAbove(us: seq<UpdateRow>, k: Key, i: nat)
    requires Ascending(Pile(us, k)) && Pile(us, k) != [] && Pile(us, k)[|Pile(us, k)| - 1] == i
    ensures forall j | i < j < |us| :: !Counts(us[j], k)
  {
    forall j | i < j < |us| ensures !Counts(us[j], k) {
      if Counts(us[j], k) {
        var m := PileFinds(us, k, j);
        assert false;
      }
    }
  }

  /** How an accepted reversal of row i moves the pile of student-week k. */
  lemma PopPile(us: seq<UpdateRow>, i: nat, who: string, at: Stamp, k: Key)
    requires Linked(us) && i < |us| && us[i].reversedAt.None? && us[i].supersededBy.None?
    ensures Pile(us, k) == Pile(Popped(us, i, who, at), k) + (if KeyOf(us[i]) == k then [i] else [])
  {
    var vs := Popped(us, i, who, at);
    if k == KeyOf(us[i]) {
      LiveRowIsTop(us, k, i);
      PileAscends(us, k);
      NothingAbove(us, k, i);
      PileDropLast(us, vs, k, i);
    } else {
      PileSame(us, vs, k);
    }
  }

  lemma PopOwnChain(us: seq<UpdateRow>, i: nat, who: string, at: Stamp)
    requires Linked(us) && i < |us| && us[i].reversedAt.None? && us[i].supersededBy.None?
    ensures Chained(Popped(us, i, who, at), KeyOf(us[i]))
  {
    var k := KeyOf(us[i]);
    var vs, p := Popped(us, i, who, at), Pile(us, k);
    PopPile(us, i, who, at, k);
    ReplacedIsNextDown(us, i, who, at);
    assert Chained(us, k);
    PileAscends(us, k);
    ChainPop(us, vs, p);
    assert Pile(vs, k) == p[..|p| - 1];
  }

  /** A reversal changes no row of another student-week. */
  lemma PopTouchesOwnKey(us: seq<UpdateRow>, i: nat, who: string, at: Stamp, j: nat)
    requires Linked(us) && i < |us| && us[i].reversedAt.None? && us[i].supersededBy.None?
    requires j < |us| && KeyOf(us[j]) != KeyOf(us[i])
    ensures Popped(us, i, who, at)[j] == us[j]
  {
    ReplacedIsNextDown(us, i, who, at);
  }

  lemma PopOtherChain(us: seq<UpdateRow>, i: nat, who: string, at: Stamp, k: Key)
    requires Linked(us) && i < |us| && us[i].reversedAt.None? && us[i].supersededBy.None?
    requires k != KeyOf(us[i])
    ensures Chained(Popped(us, i, who, at), k)
  {
    var vs, p := Popped(us, i, who, at), Pile(us, k);
    assert Pile(vs, k) == p by {
      PopPile(us, i, who, at, k);
    }
    assert Chain(us, p) by {
      assert Chained(us, k);
    }
    forall m | 0 <= m < |p| ensures us[p[m]] == vs[p[m]] {
      PopTouchesOwnKey(us, i, who, at, p[m]);
    }
    ChainSame(us, vs, p);
  }

  lemma PopKeepsHours(us: seq<UpdateRow>, i: nat, who: string, at: Stamp)
    requires i < |us|
    ensures forall j | 0 <= j < |us| :: Popped(us, i, who, at)[j].hours == us[j].hours
  {
    hide FirstIndex;
  }

  lemma PopStack(us: seq<UpdateRow>, i: nat, who: string, at: Stamp, k: Key)
    requires Linked(us) && i < |us| && us[i].reversedAt.None? && us[i].supersededBy.None?
    ensures Stack(us, k) == Stack(Popped(us, i, who, at), k) + (if KeyOf(us[i]) == k then [us[i].hours] else [])
  {
    hide Pile;
    hide Popped;
    hide Linked;
    PopPile(us, i, who, at, k);
    PopKeepsHours(us, i, who, at);
  }

  /** An accepted reversal pops its own stack and keeps the links. */
  lemma PopStep(us: seq<UpdateRow>, i: nat, who: string, at: Stamp)
    requires Linked(us) && i < |us| && us[i].reversedAt.None? && us[i].supersededBy.None?
    ensures Linked(Popped(us, i, who, at))
    ensures forall k :: Stack(us, k) == Stack(Popped(us, i, who, at), k) + (if KeyOf(us[i]) == k then [us[i].hours] else [])
  {
    var vs := Popped(us, i, who, at);
    ReplacedIsNextDown(us, i, who, at);
    forall k
      ensures Chained(vs, k)
      ensures Stack(us, k) == Stack(vs, k) + (if KeyOf(us[i]) == k then [us[i].hours] else [])
    {
      if k == KeyOf(us[i]) {
        PopOwnChain(us, i, who, at);
      } else {
        PopOtherChain(us, i, who, at, k);
      }
      PopStack(us, i, who, at, k);
    }
  }
}
