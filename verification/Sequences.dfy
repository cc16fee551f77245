/** Selecting rows of a table: `Where` is SELECT ... WHERE p ORDER BY pk, and
    `FirstIndex` the row a single-row query returns. */
module Sequences {
  import opened Wrappers

  function Where<T>(s: seq<T>, p: T -> bool): (r: seq<T>) {
    if s == [] then []
    else
      var n := |s| - 1;
      Where(s[..n], p) + (if p(s[n]) then [s[n]] else [])
  }

  lemma {:induction false} WhereMember<T>(s: seq<T>, p: T -> bool, x: T)
    ensures x in Where(s, p) <==> x in s && p(x)
  {
    if s != [] {
      var n := |s| - 1;
      WhereMember(s[..n], p, x);
      assert s == s[..n] + [s[n]];
    }
  }

  lemma {:induction false} WhereAppend<T>(s: seq<T>, x: T, p: T -> bool)
    ensures Where(s + [x], p) == Where(s, p) + (if p(x) then [x] else [])
  {
    assert (s + [x])[..|s|] == s;
  }

  lemma {:induction false} WherePrepend<T>(x: T, s: seq<T>, p: T -> bool)
    ensures Where([x] + s, p) == (if p(x) then [x] else []) + Where(s, p)
  {
    var n := |s|;
    if n == 0 {
      assert [x] + s == [] + [x];
      WhereAppend([], x, p);
    } else {
      assert ([x] + s)[..n] == [x] + s[..n - 1];
      WherePrepend(x, s[..n - 1], p);
    }
  }

  lemma {:induction false} LastRow<T>(s: seq<T>, p: T -> bool) returns (i: int)
    ensures -1 <= i < |s| && forall j | i < j < |s| :: !p(s[j])
    ensures if i < 0 then Where(s, p) == [] else p(s[i]) && Where(s, p) != [] && Where(s, p)[|Where(s, p)| - 1] == s[i]
  {
    if s == [] {
      i := -1;
    } else {
      var n := |s| - 1;
      var init := s[..n];
      i := LastRow(init, p);
      assert forall j | 0 <= j < n :: init[j] == s[j];
      if p(s[n]) {
        assert Where(s, p) == Where(init, p) + [s[n]];
        i := n;
      } else {
        assert Where(s, p) == Where(init, p);
      }
    }
  }

  /** The last row of a query, if any, is the last row of the table that it selects. */
  lemma WhereLast<T>(s: seq<T>, p: T -> bool)
    ensures Where(s, p) == [] <==> forall i | 0 <= i < |s| :: !p(s[i])
    ensures Where(s, p) != [] ==>
      exists i :: 0 <= i < |s| && p(s[i]) && Where(s, p)[|Where(s, p)| - 1] == s[i] && forall j | i < j < |s| :: !p(s[j])
  {
    hide Where;
    var i := LastRow(s, p);
  }

  /** A query does not see changes confined to rows it does not select. */
  lemma {:induction false} WhereSame<T>(s: seq<T>, t: seq<T>, p: T -> bool)
    requires |s| == |t|
    requires forall i | 0 <= i < |s| :: p(s[i]) == p(t[i]) && (p(s[i]) ==> s[i] == t[i])
    ensures Where(s, p) == Where(t, p)
  {
    if s != [] {
      WhereSame(s[..|s| - 1], t[..|s| - 1], p);
    }
  }

  lemma {:induction false} WhereAlike<T>(s: seq<T>, p: T -> bool, q: T -> bool)
    requires forall x :: p(x) == q(x)
    ensures Where(s, p) == Where(s, q)
  {
    if s != [] {
      WhereAlike(s[..|s| - 1], p, q);
    }
  }

  lemma {:induction false} WhereNone<T>(s: seq<T>, p: T -> bool)
    requires forall i | 0 <= i < |s| :: !p(s[i])
    ensures Where(s, p) == []
  {
    if s != [] {
      WhereNone(s[..|s| - 1], p);
    }
  }

  lemma {:induction false} WhereOnly<T>(s: seq<T>, p: T -> bool, i: nat)
    requires i < |s| && p(s[i])
    requires forall j | 0 <= j < |s| && j != i :: !p(s[j])
    ensures Where(s, p) == [s[i]]
  {
    var n := |s| - 1;
    if i == n {
      WhereNone(s[..n], p);
    } else {
      WhereOnly(s[..n], p, i);
    }
  }

  /** Selecting from a selection is selecting by the conjunction. */
  lemma {:induction false} WhereWhere<T>(s: seq<T>, p: T -> bool, q: T -> bool, both: T -> bool)
    requires forall x | x in s :: both(x) == (p(x) && q(x))
    ensures Where(Where(s, p), q) == Where(s, both)
  {
    if s != [] {
      var n := |s| - 1;
      WhereWhere(s[..n], p, q, both);
      assert s[n] in s;
      if p(s[n]) {
        WhereAppend(Where(s[..n], p), s[n], q);
      } else {
        assert Where(s, p) == Where(s[..n], p);
      }
    }
  }

  function FirstIndex<T>(s: seq<T>, p: T -> bool): (r: Option<nat>)
    ensures r.Some? ==> r.value < |s| && p(s[r.value]) && forall i | 0 <= i < r.value :: !p(s[i])
    ensures r.None? ==> forall i | 0 <= i < |s| :: !p(s[i])
  {
    if s == [] then None
    else if p(s[0]) then Some(0)
    else
      match FirstIndex(s[1..], p)
      case None =>
        assert forall i | 0 < i < |s| :: s[i] == s[1..][i - 1];
        None
      case Some(i) =>
        assert forall j | 0 < j < |s| :: s[j] == s[1..][j - 1];
        Some(i + 1)
  }

  lemma FirstIndexOnly<T>(s: seq<T>, p: T -> bool, i: nat)
    requires i < |s| && p(s[i])
    requires forall j | 0 <= j < |s| && j != i :: !p(s[j])
    ensures FirstIndex(s, p) == Some(i)
  {
  }

  function Mapped<T, U>(s: seq<T>, f: T -> U): (r: seq<U>)
    ensures |r| == |s| && forall i | 0 <= i < |s| :: r[i] == f(s[i])
  {
    seq(|s|, i requires 0 <= i < |s| => f(s[i]))
  }

  lemma MultisetWithout<T>(b: seq<T>, i: nat)
    requires i < |b|
    ensures multiset(b[..i] + b[i + 1..]) == multiset(b) - multiset{b[i]}
  {
    assert b == b[..i] + ([b[i]] + b[i + 1..]);
    assert multiset(b) == multiset(b[..i]) + multiset([b[i]] + b[i + 1..]);
  }

  lemma IndexOf<T>(b: seq<T>, x: T) returns (i: nat)
    requires x in multiset(b)
    ensures i < |b| && b[i] == x
  {
    i :| 0 <= i < |b| && b[i] == x;
  }

  lemma MappedWithout<T, U>(s: seq<T>, i: nat, f: T -> U)
    requires i < |s|
    ensures multiset(Mapped(s[..i] + s[i + 1..], f)) == multiset(Mapped(s, f)) - multiset{f(s[i])}
  {
    MultisetWithout(Mapped(s, f), i);
    assert Mapped(s[..i] + s[i + 1..], f) == Mapped(s, f)[..i] + Mapped(s, f)[i + 1..];
  }

  /** Mapping a permutation gives a permutation of the map. */
  lemma {:induction false} MappedPermuted<T, U>(a: seq<T>, b: seq<T>, f: T -> U)
    requires multiset(a) == multiset(b)
    ensures multiset(Mapped(a, f)) == multiset(Mapped(b, f))
    decreases |a|
  {
    hide Mapped;
    assert |a| == |multiset(a)| == |multiset(b)| == |b|;
    if a == [] {
      assert a == b;
    } else {
      assert a[0] in multiset(a);
      var i := IndexOf(b, a[0]);
      MultisetWithout(a, 0);
      MultisetWithout(b, i);
      var a', b' := a[..0] + a[1..], b[..i] + b[i + 1..];
      MappedPermuted(a', b', f);
      MappedStep(a, b, i, f);
    }
  }

  lemma MappedStep<T, U>(a: seq<T>, b: seq<T>, i: nat, f: T -> U)
    requires a != [] && i < |b| && a[0] == b[i]
    requires multiset(Mapped(a[..0] + a[1..], f)) == multiset(Mapped(b[..i] + b[i + 1..], f))
    ensures multiset(Mapped(a, f)) == multiset(Mapped(b, f))
  {
    hide Mapped;
    MappedWithout(a, 0, f);
    MappedWithout(b, i, f);
    assert Mapped(a, f)[0] == f(a[0]) && Mapped(b, f)[i] == f(a[0]);
    MultisetSame(Mapped(a, f), Mapped(b, f), f(a[0]));
  }

  lemma MultisetSame<T>(a: seq<T>, b: seq<T>, x: T)
    requires x in multiset(a) && x in multiset(b)
    requires multiset(a) - multiset{x} == multiset(b) - multiset{x}
    ensures multiset(a) == multiset(b)
  {
    assert multiset(a) == multiset(a) - multiset{x} + multiset{x};
    assert multiset(b) == multiset(b) - multiset{x} + multiset{x};
  }
}
