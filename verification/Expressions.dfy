/** The template expression resolver. What a property access, an equality or a
    truth test does on values belongs to the host and is a parameter. */
module Expressions {
  import opened Wrappers
  import PseudoCss
  import Identifiers

  datatype Value = Undefined | Null | Bool(value: bool) | Text(text: string) | Other(id: nat)

  datatype Host = Host(
    get: (Value, Value) -> Value, strict: (Value, Value) -> bool, loose: (Value, Value) -> bool,
    truthy: Value -> bool, number: string -> Value)

  datatype Equality = StrictEq | StrictNe | LooseEq | LooseNe

  function Spelled(op: Equality): (s: string)
    ensures 2 <= |s| <= 3
  {
    match op
    case StrictEq => "==="
    case StrictNe => "!=="
    case LooseEq => "=="
    case LooseNe => "!="
  }

  function Compared(h: Host, op: Equality, a: Value, b: Value): bool {
    match op
    case StrictEq => h.strict(a, b)
    case StrictNe => !h.strict(a, b)
    case LooseEq => h.loose(a, b)
    case LooseNe => !h.loose(a, b)
  }

  /** Nothing has no members. */
  function Member(h: Host, base: Value, key: Value): Value {
    if base.Undefined? || base.Null? then Undefined else h.get(base, key)
  }

  /* Words and numbers. */

  predicate StartsName(c: char) { 'a' <= c <= 'z' || 'A' <= c <= 'Z' || c == '_' || c == '$' }

  function RunOf(s: string, p: char -> bool): (n: nat)
    ensures n <= |s| && (forall i | 0 <= i < n :: p(s[i])) && (n < |s| ==> !p(s[n]))
  {
    if s == "" || !p(s[0]) then 0 else 1 + RunOf(s[1..], p)
  }

  function Digits(): char -> bool { (c: char) => Identifiers.IsDigit(c) }

  function NameChars(): char -> bool { (c: char) => StartsName(c) || Identifiers.IsDigit(c) }

  function NameLength(s: string): (n: nat)
    ensures n <= |s|
  {
    if s == "" || !StartsName(s[0]) then 0 else RunOf(s, NameChars())
  }

  /** After a dot: a name, or else digits. */
  function KeyLength(s: string): (n: nat)
    ensures n <= |s|
  {
    if NameLength(s) > 0 then NameLength(s) else RunOf(s, Digits())
  }

  predicate AllDigits(s: string) { s != "" && RunOf(s, Digits()) == |s| }

  predicate IsNumber(s: string) {
    var t := if s != "" && s[0] == '-' then s[1..] else s;
    var n := RunOf(t, Digits());
    n > 0 && (n == |t| || (t[n] == '.' && AllDigits(t[n + 1..])))
  }

  /* The scans. */

  /** Reading on from depth d, some closing parenthesis brings the depth to zero. */
  predicate ReachesZero(s: string, d: int) {
    s != "" &&
    if s[0] == '(' then ReachesZero(s[1..], d + 1)
    else if s[0] == ')' then d == 1 || ReachesZero(s[1..], d - 1)
    else ReachesZero(s[1..], d)
  }

  predicate WrapsWhole(expr: string)
    requires expr != ""
  {
    !ReachesZero(expr[..|expr| - 1], 0)
  }

  predicate EqualityAt(s: string, i: nat)
    requires i < |s|
  {
    && (s[i] == '=' || s[i] == '!') && i + 1 < |s| && s[i + 1] == '='
    && !(i > 0 && (s[i - 1] == '=' || s[i - 1] == '!'))
    && PseudoCss.Trim(s[..i]) != ""
  }

  function OperatorAt(s: string, i: nat): (op: Equality)
    requires i < |s| && EqualityAt(s, i)
    ensures i + |Spelled(op)| <= |s|
  {
    var long := i + 2 < |s| && s[i + 2] == '=';
    if s[i] == '=' then (if long then StrictEq else LooseEq) else (if long then StrictNe else LooseNe)
  }

  /** The first equality operator outside all brackets, reading on from i. */
  function FindEquality(s: string, i: nat, d: int): (r: Option<nat>)
    ensures r.Some? ==> i <= r.value < |s| && EqualityAt(s, r.value)
    decreases |s| - i
  {
    if i >= |s| then None
    else if s[i] == '[' || s[i] == '(' then FindEquality(s, i + 1, d + 1)
    else if s[i] == ']' || s[i] == ')' then FindEquality(s, i + 1, d - 1)
    else if d == 0 && EqualityAt(s, i) then Some(i)
    else FindEquality(s, i + 1, d)
  }

  /** Where the bracket opened d deep closes. */
  function CloseAt(t: string, d: nat): (r: Option<nat>)
    requires d > 0
    ensures r.Some? ==> r.value < |t|
  {
    if t == "" then None
    else if t[0] == ']' && d == 1 then Some(0)
    else
      var rest := CloseAt(t[1..], if t[0] == '[' then d + 1 else if t[0] == ']' then d - 1 else d);
      if rest.None? then None else Some(rest.value + 1)
  }

  lemma TrimShorter(s: string)
    ensures |PseudoCss.Trim(s)| <= |s|
  {
    var t := PseudoCss.TrimLeft(s);
    assert PseudoCss.TrimRight(t) <= t;
  }

  /* Resolving. */

  function Resolve(h: Host, vals: Value, src: string): Value
    decreases |src|, 2
  {
    TrimShorter(src);
    var e := PseudoCss.Trim(src);
    if e == "" then Undefined
    else if e[0] == '(' && e[|e| - 1] == ')' && WrapsWhole(e) then Resolve(h, vals, e[1..|e| - 1])
    else
      match FindEquality(e, 0, 0)
      case Some(i) =>
        var op := OperatorAt(e, i);
        Bool(Compared(h, op, Resolve(h, vals, e[..i]), Resolve(h, vals, e[i + |Spelled(op)|..])))
      case None =>
        if e[0] == '!' then Bool(!h.truthy(Resolve(h, vals, e[1..]))) else ResolveAtom(h, vals, e)
  }

  function ResolveAtom(h: Host, vals: Value, e: string): Value
    requires e != ""
    decreases |e|, 1
  {
    if e == "true" then Bool(true)
    else if e == "false" then Bool(false)
    else if e == "null" then Null
    else if e == "undefined" then Undefined
    else if IsNumber(e) then h.number(e)
    else if |e| >= 2 && PseudoCss.IsQuote(e[0]) && e[|e| - 1] == e[0] then Text(e[1..|e| - 1])
    else
      var n := NameLength(e);
      if n == 0 then Undefined else PathFrom(h, vals, Member(h, vals, Text(e[..n])), e[n..])
  }

  /** Following the rest of a path from a value. */
  function PathFrom(h: Host, vals: Value, cur: Value, t: string): Value
    decreases |t|, 0
  {
    if t == "" then cur
    else if t[0] == '.' then
      var n := KeyLength(t[1..]);
      if n == 0 then Undefined else PathFrom(h, vals, Member(h, cur, Text(t[1..1 + n])), t[1 + n..])
    else if t[0] == '[' then
      match CloseAt(t[1..], 1)
      case None => Undefined
      case Some(k) => PathFrom(h, vals, Member(h, cur, Resolve(h, vals, t[1..1 + k])), t[k + 2..])
    else Undefined
  }

  /* The loops. */

  method ParensWrapWhole(expr: string) returns (r: bool)
    requires expr != ""
    ensures r == WrapsWhole(expr)
  {
    var depth := 0;
    var t := expr[..|expr| - 1];
    for i := 0 to |expr| - 1
      invariant ReachesZero(t, 0) == ReachesZero(t[i..], depth)
    {
      assert t[i..][0] == expr[i] && t[i..][1..] == t[i + 1..];
      if expr[i] == '(' {
        depth := depth + 1;
      } else if expr[i] == ')' {
        depth := depth - 1;
        if depth == 0 {
          return false;
        }
      }
    }
    return true;
  }

  method FindTopLevelEquality(expr: string) returns (r: Option<nat>)
    ensures r == FindEquality(expr, 0, 0)
  {
    hide EqualityAt;
    var depth := 0;
    for i := 0 to |expr|
      invariant FindEquality(expr, 0, 0) == FindEquality(expr, i, depth)
    {
      var c := expr[i];
      if c == '[' || c == '(' {
        depth := depth + 1;
      } else if c == ']' || c == ')' {
        depth := depth - 1;
      } else if depth == 0 && EqualityAt(expr, i) {
        return Some(i);
      }
    }
    return None;
  }

  method FindClose(expr: string, i: nat) returns (r: Option<nat>)
    requires i < |expr|
    ensures r == match CloseAt(expr[i + 1..], 1) case None => None case Some(k) => Some(i + 1 + k)
  {
    var depth, j := 1, i + 1;
    ghost var goal := CloseAt(expr[i + 1..], 1);
    while j < |expr| && depth > 0
      invariant i + 1 <= j <= |expr| && depth >= 1
      invariant goal == match CloseAt(expr[j..], depth) case None => None case Some(k) => Some(j - i - 1 + k)
    {
      assert expr[j..][0] == expr[j] && expr[j..][1..] == expr[j + 1..];
      if expr[j] == '[' {
        depth := depth + 1;
      } else if expr[j] == ']' {
        if depth == 1 {
          return Some(j);
        }
        depth := depth - 1;
      }
      j := j + 1;
    }
    return None;
  }

  /* One step of the resolver at a time. */

  lemma ResolveWrapped(h: Host, vals: Value, src: string)
    requires var e := PseudoCss.Trim(src); e != "" && e[0] == '(' && e[|e| - 1] == ')' && WrapsWhole(e)
    ensures var e := PseudoCss.Trim(src); Resolve(h, vals, src) == Resolve(h, vals, e[1..|e| - 1])
  {
    hide PseudoCss.Trim;
    hide WrapsWhole;
    hide ResolveAtom;
    hide FindEquality;
    hide EqualityAt;
  }

  lemma ResolveEquality(h: Host, vals: Value, src: string)
    requires var e := PseudoCss.Trim(src); e != "" && !(e[0] == '(' && e[|e| - 1] == ')' && WrapsWhole(e))
    requires FindEquality(PseudoCss.Trim(src), 0, 0).Some?
    ensures var e := PseudoCss.Trim(src);
      var i := FindEquality(e, 0, 0).value;
      var op := OperatorAt(e, i);
      Resolve(h, vals, src) == Bool(Compared(h, op, Resolve(h, vals, e[..i]), Resolve(h, vals, e[i + |Spelled(op)|..])))
  {
    hide PseudoCss.Trim;
    hide WrapsWhole;
    hide ResolveAtom;
    hide FindEquality;
    hide EqualityAt;
    hide Compared;
    hide OperatorAt;
  }

  lemma ResolveRest(h: Host, vals: Value, src: string)
    requires var e := PseudoCss.Trim(src); e != "" && !(e[0] == '(' && e[|e| - 1] == ')' && WrapsWhole(e))
    requires FindEquality(PseudoCss.Trim(src), 0, 0).None?
    ensures var e := PseudoCss.Trim(src);
      Resolve(h, vals, src) == if e[0] == '!' then Bool(!h.truthy(Resolve(h, vals, e[1..]))) else ResolveAtom(h, vals, e)
  {
    hide PseudoCss.Trim;
    hide WrapsWhole;
    hide ResolveAtom;
    hide FindEquality;
    hide EqualityAt;
  }

  lemma PathDot(h: Host, vals: Value, cur: Value, t: string)
    requires t != "" && t[0] == '.'
    ensures var n := KeyLength(t[1..]);
      PathFrom(h, vals, cur, t)
      == if n == 0 then Undefined else PathFrom(h, vals, Member(h, cur, Text(t[1..1 + n])), t[1 + n..])
  {
    hide KeyLength;
    hide Member;
    hide Resolve;
    hide CloseAt;
  }

  lemma PathBracket(h: Host, vals: Value, cur: Value, t: string)
    requires t != "" && t[0] == '['
    ensures PathFrom(h, vals, cur, t)
            == match CloseAt(t[1..], 1)
               case None => Undefined
               case Some(k) => PathFrom(h, vals, Member(h, cur, Resolve(h, vals, t[1..1 + k])), t[k + 2..])
  {
    hide KeyLength;
    hide Member;
    hide Resolve;
    hide CloseAt;
  }

  lemma PathEnd(h: Host, vals: Value, cur: Value, t: string)
    requires t != "" ==> t[0] != '.' && t[0] != '['
    ensures PathFrom(h, vals, cur, t) == if t == "" then cur else Undefined
  {
  }

  lemma SliceOfRest(s: string, i: nat, from: nat, to: nat)
    requires from <= to && i + to <= |s|
    ensures s[i..][from..to] == s[i + from..i + to] && s[i..][to..] == s[i + to..]
  {
  }

  method ResolvePath(h: Host, vals: Value, expr: string) returns (cur: Value)
    requires expr != ""
    ensures cur == if NameLength(expr) == 0 then Undefined
                   else PathFrom(h, vals, Member(h, vals, Text(expr[..NameLength(expr)])), expr[NameLength(expr)..])
    decreases |expr|, 1
  {
    hide Resolve;
    hide CloseAt;
    hide KeyLength;
    hide NameLength;
    hide PathFrom;
    hide Member;
    var i := NameLength(expr);
    if i == 0 {
      return Undefined;
    }
    cur := Member(h, vals, Text(expr[..i]));
    ghost var goal := PathFrom(h, vals, cur, expr[i..]);
    while i < |expr|
      invariant 0 < i <= |expr| && PathFrom(h, vals, cur, expr[i..]) == goal
    {
      ghost var t := expr[i..];
      assert t[1..] == expr[i + 1..];
      if expr[i] == '.' {
        PathDot(h, vals, cur, t);
        var n := KeyLength(expr[i + 1..]);
        SliceOfRest(expr, i, 1, 1 + n);
        if n == 0 {
          return Undefined;
        }
        cur := Member(h, cur, Text(expr[i + 1..i + 1 + n]));
        i := i + 1 + n;
      } else if expr[i] == '[' {
        PathBracket(h, vals, cur, t);
        var close := FindClose(expr, i);
        if close.None? {
          return Undefined;
        }
        var j := close.value;
        SliceOfRest(expr, i, 1, j - i);
        SliceOfRest(expr, i, 1, j - i + 1);
        var key := ResolveText(h, vals, expr[i + 1..j]);
        cur := Member(h, cur, key);
        i := j + 1;
      } else {
        PathEnd(h, vals, cur, t);
        return Undefined;
      }
    }
    PathEnd(h, vals, cur, expr[i..]);
  }

  method ResolveWord(h: Host, vals: Value, e: string) returns (v: Value)
    requires e != ""
    ensures v == ResolveAtom(h, vals, e)
    decreases |e|, 2
  {
    hide PathFrom;
    hide IsNumber;
    hide NameLength;
    hide PseudoCss.IsQuote;
    hide Member;
    if e == "true" { return Bool(true); }
    if e == "false" { return Bool(false); }
    if e == "null" { return Null; }
    if e == "undefined" { return Undefined; }
    if IsNumber(e) { return h.number(e); }
    if |e| >= 2 && PseudoCss.IsQuote(e[0]) && e[|e| - 1] == e[0] { return Text(e[1..|e| - 1]); }
    v := ResolvePath(h, vals, e);
  }

  method ResolveText(h: Host, vals: Value, src: string) returns (v: Value)
    ensures v == Resolve(h, vals, src)
    decreases |src|, 3
  {
    hide FindEquality;
    hide WrapsWhole;
    hide ResolveAtom;
    hide EqualityAt;
    hide Resolve;
    hide PseudoCss.Trim;
    hide Compared;
    hide OperatorAt;
    TrimShorter(src);
    var e := PseudoCss.Trim(src);
    if e == "" {
      ResolveBlank(h, vals, src);
      return Undefined;
    }
    var wraps := false;
    if e[0] == '(' && e[|e| - 1] == ')' {
      wraps := ParensWrapWhole(e);
    }
    if wraps {
      ResolveWrapped(h, vals, src);
      v := ResolveText(h, vals, e[1..|e| - 1]);
      return;
    }
    var eq := FindTopLevelEquality(e);
    if eq.Some? {
      ResolveEquality(h, vals, src);
      var op := OperatorAt(e, eq.value);
      var l := ResolveText(h, vals, e[..eq.value]);
      var r := ResolveText(h, vals, e[eq.value + |Spelled(op)|..]);
      return Bool(Compared(h, op, l, r));
    }
    ResolveRest(h, vals, src);
    if e[0] == '!' {
      var operand := ResolveText(h, vals, e[1..]);
      return Bool(!h.truthy(operand));
    }
    v := ResolveWord(h, vals, e);
  }

  lemma ResolveBlank(h: Host, vals: Value, src: string)
    requires PseudoCss.Trim(src) == ""
    ensures Resolve(h, vals, src) == Undefined
  {
    hide PseudoCss.Trim;
    hide FindEquality;
    hide ResolveAtom;
  }
}
