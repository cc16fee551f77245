/** What resolving means: the text of an expression resolves to the expression's
    value, and parentheses and spaces around a text do not matter. */
module ExpressionLaws {
  import opened Wrappers
  import opened Expressions
  import PseudoCss
  import Identifiers

  datatype Expr =
    | TrueWord | FalseWord | NullWord | UndefinedWord
    | Number(text: string)
    | Quoted(quote: char, text: string)
    | Name(name: string)
    | Dot(base: Expr, name: string)
    | At(base: Expr, key: Expr)
    | Not(operand: Expr)
    | Equal(op: Equality, left: Expr, right: Expr)

  predicate IsBracket(c: char) { c in {'(', ')', '[', ']'} }

  /** Neither brackets nor equals signs. */
  predicate Calm(t: string) { forall i | 0 <= i < |t| :: !IsBracket(t[i]) && t[i] != '=' }

  predicate IsName(s: string) { s != "" && NameLength(s) == |s| }

  predicate IsPath(e: Expr) { e.Name? || e.Dot? || e.At? }

  /** Expressions the language can spell in every place. The scans look for brackets
      and operators without regard to quotes, so quoted text must have its brackets
      balanced and no two operator characters next to each other outside them. */
  predicate WellFormed(e: Expr) {
    match e
    case TrueWord => true
    case FalseWord => true
    case NullWord => true
    case UndefinedWord => true
    case Number(t) => IsNumber(t)
    case Quoted(q, t) => (q == '\'' || q == '"') && Balanced(t) && Flat(t, 0)
    case Name(n) => IsName(n) && n != "true" && n != "false" && n != "null" && n != "undefined"
    case Dot(b, n) => IsPath(b) && WellFormed(b) && n != "" && KeyLength(n) == |n|
    case At(b, k) => IsPath(b) && WellFormed(b) && WellFormed(k)
    case Not(x) => WellFormed(x)
    case Equal(_, l, r) => WellFormed(l) && WellFormed(r)
  }

  function Print(e: Expr): string
    decreases e, 0
  {
    match e
    case TrueWord => "true"
    case FalseWord => "false"
    case NullWord => "null"
    case UndefinedWord => "undefined"
    case Number(t) => t
    case Quoted(q, t) => [q] + t + [q]
    case Name(n) => n
    case Dot(b, n) => Print(b) + "." + n
    case At(b, k) => Print(b) + "[" + Print(k) + "]"
    case Not(x) => "!" + Operand(x)
    case Equal(op, l, r) => Operand(l) + " " + Spelled(op) + " " + Print(r)
  }

  /** An equality is the only expression that needs parentheses as an operand; on the
      right of another equality it does not, since the leftmost operator splits. */
  function Operand(e: Expr): string
    decreases e, 1
  {
    if e.Equal? then "(" + Print(e) + ")" else Print(e)
  }

  function Eval(h: Host, vals: Value, e: Expr): Value {
    match e
    case TrueWord => Bool(true)
    case FalseWord => Bool(false)
    case NullWord => Null
    case UndefinedWord => Undefined
    case Number(t) => h.number(t)
    case Quoted(_, t) => Text(t)
    case Name(n) => Get(h, vals, Text(n))
    case Dot(b, n) => Get(h, Eval(h, vals, b), Text(n))
    case At(b, k) => Get(h, Eval(h, vals, b), Eval(h, vals, k))
    case Not(x) => if h.truthy(Eval(h, vals, x)) then Bool(false) else Bool(true)
    case Equal(op, l, r) => Bool(Agrees(h, op, Eval(h, vals, l), Eval(h, vals, r)))
  }

  /** Undefined and null have no members; reading one gives undefined. */
  function Get(h: Host, base: Value, key: Value): Value {
    match base
    case Undefined => Undefined
    case Null => Undefined
    case _ => h.get(base, key)
  }

  /** Two of the operators are the negations of the other two. */
  function Agrees(h: Host, op: Equality, a: Value, b: Value): bool {
    if op == StrictEq || op == StrictNe then h.strict(a, b) == (op == StrictEq)
    else h.loose(a, b) == (op == LooseEq)
  }

  lemma SameMeaning(h: Host)
    ensures forall base, key :: Member(h, base, key) == Get(h, base, key)
    ensures forall op, a, b :: Compared(h, op, a, b) == Agrees(h, op, a, b)
  {
  }

  /* Brackets. */

  datatype Brackets = Round | Square | Both

  function Turn(c: char, b: Brackets): int {
    if (c == '(' && b != Square) || (c == '[' && b != Round) then 1
    else if (c == ')' && b != Square) || (c == ']' && b != Round) then -1
    else 0
  }

  function Net(s: string, b: Brackets): int { if s == "" then 0 else Turn(s[0], b) + Net(s[1..], b) }

  /** Reading on from depth d, the depth never falls below zero. */
  predicate Stays(s: string, b: Brackets, d: int) {
    s == "" || (d + Turn(s[0], b) >= 0 && Stays(s[1..], b, d + Turn(s[0], b)))
  }

  /** "==" or "!=" starts here. */
  predicate PairAt(s: string) { |s| > 1 && (s[0] == '=' || s[0] == '!') && s[1] == '=' }

  /** No such pair at depth zero, and the depth never falls below zero. */
  predicate Flat(s: string, d: int) {
    d >= 0 && (s == "" || ((d == 0 ==> !PairAt(s)) && Flat(s[1..], d + Turn(s[0], Both))))
  }

  /** Putting t behind s makes no pair at the seam. */
  predicate Meets(s: string, t: string) {
    s == "" || t == "" || t[0] != '=' || (s[|s| - 1] != '=' && s[|s| - 1] != '!')
  }

  lemma {:induction false} NetSplit(s: string, t: string, b: Brackets)
    ensures Net(s + t, b) == Net(s, b) + Net(t, b)
  {
    if s == "" {
      assert s + t == t;
    } else {
      assert (s + t)[1..] == s[1..] + t;
      NetSplit(s[1..], t, b);
    }
  }

  lemma {:induction false} StaysSplit(s: string, t: string, b: Brackets, d: int)
    ensures Stays(s + t, b, d) <==> Stays(s, b, d) && Stays(t, b, d + Net(s, b))
  {
    if s == "" {
      assert s + t == t;
    } else {
      assert (s + t)[1..] == s[1..] + t;
      StaysSplit(s[1..], t, b, d + Turn(s[0], b));
    }
  }

  lemma {:induction false} FlatSplit(s: string, t: string, d: int)
    requires Meets(s, t)
    ensures Flat(s + t, d) <==> Flat(s, d) && Flat(t, d + Net(s, Both))
  {
    if s == "" {
      assert s + t == t;
    } else {
      assert (s + t)[1..] == s[1..] + t;
      assert Meets(s[1..], t) by {
        if |s| > 1 {
          assert s[1..][|s| - 2] == s[|s| - 1];
        }
      }
      PairInFront(s, t);
      FlatSplit(s[1..], t, d + Turn(s[0], Both));
    }
  }

  lemma PairInFront(s: string, t: string)
    requires s != "" && Meets(s, t)
    ensures PairAt(s + t) <==> PairAt(s)
  {
    assert (s + t)[0] == s[0];
    if |s| > 1 {
      assert (s + t)[1] == s[1];
    } else if t != "" {
      assert (s + t)[1] == t[0];
    }
  }

  lemma {:induction false} FlatDeeper(s: string, d: int)
    requires Flat(s, d)
    ensures Flat(s, d + 1)
  {
    if s != "" {
      FlatDeeper(s[1..], d + Turn(s[0], Both));
    }
  }

  lemma {:induction false} StaysDeeper(s: string, b: Brackets, d: int)
    requires Stays(s, b, d)
    ensures Stays(s, b, d + 1)
  {
    if s != "" {
      StaysDeeper(s[1..], b, d + Turn(s[0], b));
    }
  }

  predicate BalancedIn(s: string, b: Brackets) { Net(s, b) == 0 && Stays(s, b, 0) }

  predicate Balanced(s: string) { BalancedIn(s, Round) && BalancedIn(s, Square) && BalancedIn(s, Both) }

  lemma JoinIn(s: string, t: string, b: Brackets)
    requires BalancedIn(s, b) && BalancedIn(t, b)
    ensures BalancedIn(s + t, b)
  {
    NetSplit(s, t, b);
    StaysSplit(s, t, b, 0);
  }

  lemma Join(s: string, t: string)
    requires Balanced(s) && Balanced(t) && Meets(s, t)
    ensures Balanced(s + t)
    ensures forall d | Flat(s, d) && Flat(t, d) :: Flat(s + t, d)
  {
    JoinIn(s, t, Round);
    JoinIn(s, t, Square);
    JoinIn(s, t, Both);
    forall d | Flat(s, d) && Flat(t, d) ensures Flat(s + t, d) {
      FlatSplit(s, t, d);
    }
  }

  lemma EncloseIn(open: char, s: string, close: char, b: Brackets)
    requires (open == '(' && close == ')') || (open == '[' && close == ']')
    requires BalancedIn(s, b)
    ensures BalancedIn([open] + s + [close], b)
  {
    OneNet(open, b);
    OneNet(close, b);
    NetSplit([open], s, b);
    NetSplit([open] + s, [close], b);
    StaysSplit([open], s, b, 0);
    StaysSplit([open] + s, [close], b, 0);
    if Turn(open, b) == 1 {
      StaysDeeper(s, b, 0);
    }
  }

  lemma OneNet(c: char, b: Brackets)
    ensures Net([c], b) == Turn(c, b)
    ensures forall d: int :: Stays([c], b, d) <==> d + Turn(c, b) >= 0
    ensures forall d: int :: Flat([c], d) <==> d >= 0 && d + Turn(c, Both) >= 0
  {
    assert [c][1..] == "";
  }

  /** A balanced text in brackets is balanced, and the brackets hide its equalities. */
  lemma Enclose(open: char, s: string, close: char)
    requires (open == '(' && close == ')') || (open == '[' && close == ']')
    requires Balanced(s) && Flat(s, 1)
    ensures Balanced([open] + s + [close]) && Flat([open] + s + [close], 0)
  {
    EncloseIn(open, s, close, Round);
    EncloseIn(open, s, close, Square);
    EncloseIn(open, s, close, Both);
    OneNet(open, Both);
    OneNet(close, Both);
    NetSplit([open], s, Both);
    FlatSplit([open], s, 0);
    FlatSplit([open] + s, [close], 0);
  }

  lemma {:induction false} WithoutBrackets(s: string)
    requires forall i | 0 <= i < |s| :: !IsBracket(s[i])
    ensures forall b: Brackets :: Net(s, b) == 0
    ensures forall b: Brackets, d: int | d >= 0 :: Stays(s, b, d)
    ensures forall d: int | d >= 1 :: Flat(s, d)
    ensures Calm(s) ==> Flat(s, 0)
  {
    if s != "" {
      assert !IsBracket(s[0]);
      forall i | 0 <= i < |s| - 1 ensures !IsBracket(s[1..][i]) {
        assert s[1..][i] == s[i + 1];
      }
      assert Calm(s) ==> Calm(s[1..]) && s[0] != '=';
      WithoutBrackets(s[1..]);
    }
  }

  lemma CalmText(s: string)
    requires Calm(s)
    ensures Balanced(s) && Flat(s, 0) && Flat(s, 1)
  {
    WithoutBrackets(s);
  }

  lemma OperatorText(op: Equality)
    ensures Balanced(" " + Spelled(op) + " ") && Flat(" " + Spelled(op) + " ", 1)
  {
    WithoutBrackets(" " + Spelled(op) + " ");
  }

  /* The scans over balanced text. */

  lemma {:induction false} ReachesZeroIff(s: string, d: nat)
    ensures ReachesZero(s, d + 1) <==> !Stays(s, Round, d)
    decreases |s|
  {
    if s != "" {
      if s[0] == '(' {
        ReachesZeroIff(s[1..], d + 1);
      } else if s[0] == ')' {
        if d > 0 {
          ReachesZeroIff(s[1..], d - 1);
        }
      } else {
        ReachesZeroIff(s[1..], d);
      }
    }
  }

  /** The outermost parentheses belong together exactly when no prefix of what they
      hold closes more than it opens. */
  lemma WrapsWholeIff(e: string)
    ensures WrapsWhole("(" + e + ")") <==> Stays(e, Round, 0)
  {
    var t := "(" + e + ")";
    assert t[..|t| - 1] == "(" + e && ("(" + e)[1..] == e;
    ReachesZeroIff(e, 0);
  }

  lemma NoEqualityAt(s: string, i: nat)
    requires i < |s| && !PairAt(s[i..])
    ensures !EqualityAt(s, i)
  {
  }

  lemma NoPairAt(s: string, i: nat, j: nat)
    requires i < j <= |s| && !PairAt(s[i..j]) && (j < |s| ==> s[j] != '=')
    ensures !PairAt(s[i..])
  {
    if i + 1 < j {
      assert s[i..j][1] == s[i + 1];
    }
  }

  lemma {:induction false} FindSkips(s: string, i: nat, j: nat, d: int)
    requires i <= j <= |s| && Flat(s[i..j], d) && (j < |s| ==> s[j] != '=')
    ensures FindEquality(s, i, d) == FindEquality(s, j, d + Net(s[i..j], Both))
    decreases j - i
  {
    hide EqualityAt;
    if i < j {
      assert s[i..j][1..] == s[i + 1..j] && s[i..j][0] == s[i];
      FindSkips(s, i + 1, j, d + Turn(s[i], Both));
      if d == 0 && !IsBracket(s[i]) {
        NoPairAt(s, i, j);
        NoEqualityAt(s, i);
      }
    }
  }

  lemma NoEquality(e: string)
    requires Flat(e, 0)
    ensures FindEquality(e, 0, 0).None?
  {
    assert e[0..|e|] == e;
    FindSkips(e, 0, |e|, 0);
  }

  function Further(n: nat, r: Option<nat>): Option<nat> { if r.None? then None else Some(n + r.value) }

  lemma CloseStep(t: string, d: int)
    requires t != "" && d >= 1 && d + Turn(t[0], Square) >= 1
    ensures CloseAt(t, d) == Further(1, CloseAt(t[1..], d + Turn(t[0], Square)))
  {
  }

  lemma {:induction false} CloseSkips(s: string, rest: string, d: int)
    requires d >= 1 && Stays(s, Square, d - 1)
    ensures d + Net(s, Square) >= 1
    ensures CloseAt(s + rest, d) == Further(|s|, CloseAt(rest, d + Net(s, Square)))
    decreases |s|
  {
    hide CloseAt;
    hide Turn;
    if s == "" {
      assert s + rest == rest;
    } else {
      assert (s + rest)[1..] == s[1..] + rest && (s + rest)[0] == s[0];
      CloseSkips(s[1..], rest, d + Turn(s[0], Square));
      CloseStep(s + rest, d);
    }
  }

  /** The bracket after a balanced key is the one that closes it. */
  lemma ClosesAfter(key: string, rest: string)
    requires BalancedIn(key, Square)
    ensures CloseAt(key + "]" + rest, 1) == Some(|key|)
  {
    assert key + "]" + rest == key + ("]" + rest);
    CloseSkips(key, "]" + rest, 1);
    assert ("]" + rest)[0] == ']';
  }

  /* Spaces and parentheses around a text. */

  predicate Tight(s: string) { s != "" && !PseudoCss.IsSpace(s[0]) && !PseudoCss.IsSpace(s[|s| - 1]) }

  lemma TrimTight(s: string)
    requires Tight(s)
    ensures PseudoCss.Trim(s) == s && PseudoCss.Trim(" " + s) == s && PseudoCss.Trim(s + " ") == s
  {
    assert PseudoCss.SpaceRun(s) == 0 && s[0..] == s;
    assert (" " + s)[1..] == s && PseudoCss.SpaceRun(" " + s) == 1;
    assert PseudoCss.SpaceRun(s + " ") == 0 && (s + " ")[0..] == s + " ";
    assert (s + " ")[..|s|] == s && (s + " ")[|s|] == ' ';
  }

  /** Spaces around a text do not matter. */
  lemma ResolveByTrim(h: Host, vals: Value, a: string, b: string)
    requires PseudoCss.Trim(a) == PseudoCss.Trim(b)
    ensures Resolve(h, vals, a) == Resolve(h, vals, b)
  {
    hide PseudoCss.Trim;
    hide WrapsWhole;
    hide ResolveAtom;
    hide FindEquality;
    hide EqualityAt;
    hide OperatorAt;
    hide Resolve;
    var e := PseudoCss.Trim(a);
    if e == "" {
      ResolveBlank(h, vals, a);
      ResolveBlank(h, vals, b);
    } else if e[0] == '(' && e[|e| - 1] == ')' && WrapsWhole(e) {
      ResolveWrapped(h, vals, a);
      ResolveWrapped(h, vals, b);
    } else if FindEquality(e, 0, 0).Some? {
      ResolveEquality(h, vals, a);
      ResolveEquality(h, vals, b);
    } else {
      ResolveRest(h, vals, a);
      ResolveRest(h, vals, b);
    }
  }

  /** Wrapping a text in parentheses changes nothing, unless some prefix of it closes
      more than it opens. */
  lemma WrappingKeepsMeaning(h: Host, vals: Value, e: string)
    requires Stays(e, Round, 0)
    ensures Resolve(h, vals, "(" + e + ")") == Resolve(h, vals, e)
  {
    hide Resolve;
    hide WrapsWhole;
    var t := "(" + e + ")";
    TrimTight(t);
    WrapsWholeIff(e);
    ResolveWrapped(h, vals, t);
    assert t[1..|t| - 1] == e;
  }

  /* The shape of printed text. */

  predicate Neat(s: string) {
    Tight(s) && s[0] != '=' && s[|s| - 1] != '=' && s[|s| - 1] != '!' && Balanced(s) && Flat(s, 1)
  }

  predicate Simple(s: string) { Neat(s) && Flat(s, 0) && s[0] != '(' }

  lemma CalmWord(s: string)
    requires Calm(s) && Tight(s) && s[|s| - 1] != '!'
    ensures Simple(s)
  {
    CalmText(s);
  }

  lemma NameShape(n: string)
    requires IsName(n) || (n != "" && KeyLength(n) == |n|)
    ensures Simple(n)
  {
    if NameLength(n) == |n| {
      forall i | 0 <= i < |n| ensures StartsName(n[i]) || Identifiers.IsDigit(n[i]) {
        assert NameChars()(n[i]);
      }
    } else {
      forall i | 0 <= i < |n| ensures Identifiers.IsDigit(n[i]) {
        assert Digits()(n[i]);
      }
    }
    CalmWord(n);
  }

  /** Digits, with at most one dot, and a digit at the end. */
  lemma NumberTail(u: string)
    requires var n := RunOf(u, Digits()); n > 0 && (n == |u| || (u[n] == '.' && AllDigits(u[n + 1..])))
    ensures u != "" && Identifiers.IsDigit(u[0]) && Identifiers.IsDigit(u[|u| - 1])
    ensures forall i | 0 <= i < |u| :: Identifiers.IsDigit(u[i]) || u[i] == '.'
  {
    var n := RunOf(u, Digits());
    assert Digits()(u[0]) && Digits()(u[n - 1]);
    forall i | 0 <= i < |u| ensures Identifiers.IsDigit(u[i]) || u[i] == '.' {
      if i < n {
        assert Digits()(u[i]);
      } else if i > n {
        assert Digits()(u[n + 1..][i - n - 1]);
      }
    }
    if n < |u| {
      assert Digits()(u[n + 1..][|u| - n - 2]);
    }
  }

  lemma NumberShape(t: string)
    requires IsNumber(t)
    ensures Simple(t) && t != "" && (t[0] == '-' || Identifiers.IsDigit(t[0]))
  {
    hide RunOf;
    hide AllDigits;
    hide Simple;
    var u := if t[0] == '-' then t[1..] else t;
    NumberTail(u);
    assert t == (if t[0] == '-' then "-" + u else u);
    hide IsNumber;
    SignedIsCalm(t, u);
    CalmWord(t);
  }

  lemma SignedIsCalm(t: string, u: string)
    requires t == u || t == "-" + u
    requires u != "" && Identifiers.IsDigit(u[|u| - 1])
    requires forall i | 0 <= i < |u| :: Identifiers.IsDigit(u[i]) || u[i] == '.'
    ensures Calm(t) && Tight(t) && t[|t| - 1] != '!'
  {
    forall i | 0 <= i < |t| ensures Identifiers.IsDigit(t[i]) || t[i] == '.' || t[i] == '-' {
      if t != u && i > 0 {
        assert t[i] == u[i - 1];
      }
    }
    assert t[|t| - 1] == u[|u| - 1];
  }

  lemma QuotedShape(q: char, t: string)
    requires PseudoCss.IsQuote(q) && Balanced(t) && Flat(t, 0)
    ensures Simple([q] + t + [q])
  {
    hide Balanced;
    hide Flat;
    QuoteIsCalm(q);
    FlatDeeper(t, 0);
    Join([q], t);
    Join([q] + t, [q]);
  }

  lemma QuoteIsCalm(q: char)
    requires PseudoCss.IsQuote(q)
    ensures Balanced([q]) && Flat([q], 0) && Flat([q], 1) && q != '=' && q != '!' && q != '(' && !PseudoCss.IsSpace(q)
  {
    CalmText([q]);
  }

  lemma DotShape(b: string, n: string)
    requires Simple(b) && n != "" && KeyLength(n) == |n|
    ensures Simple(b + "." + n)
  {
    hide KeyLength;
    NameShape(n);
    CalmText(".");
    Join(b, ".");
    Join(b + ".", n);
  }

  lemma AtShape(b: string, k: string)
    requires Simple(b) && Neat(k)
    ensures Simple(b + "[" + k + "]")
  {
    Enclose('[', k, ']');
    var t := "[" + k + "]";
    assert b + "[" + k + "]" == b + t;
    FlatDeeper(t, 0);
    Join(b, t);
  }

  lemma ParensShape(s: string)
    requires Neat(s)
    ensures Neat("(" + s + ")") && Flat("(" + s + ")", 0)
  {
    Enclose('(', s, ')');
    FlatDeeper("(" + s + ")", 0);
  }

  lemma NotShape(x: string)
    requires Neat(x) && Flat(x, 0)
    ensures Simple("!" + x)
  {
    CalmText("!");
    Join("!", x);
  }

  lemma EqualShape(l: string, op: Equality, r: string)
    requires Neat(l) && Neat(r)
    ensures Neat(l + " " + Spelled(op) + " " + r)
  {
    var mid := " " + Spelled(op) + " ";
    OperatorText(op);
    Join(l, mid);
    Join(l + mid, r);
    assert l + " " + Spelled(op) + " " + r == l + mid + r;
  }

  lemma {:induction false} PrintShape(e: Expr)
    requires WellFormed(e)
    ensures Neat(Print(e)) && (!e.Equal? ==> Simple(Print(e)))
    decreases e, 0
  {
    hide Simple;
    hide Neat;
    hide Flat;
    hide Balanced;
    hide IsNumber;
    hide KeyLength;
    hide NameLength;
    match e
    case TrueWord => WordShapes();
    case FalseWord => WordShapes();
    case NullWord => WordShapes();
    case UndefinedWord => WordShapes();
    case Number(t) => NumberShape(t);
      SimpleIsNeat(t);
    case Quoted(q, t) => QuotedShape(q, t);
      SimpleIsNeat(Print(e));
    case Name(n) => NameShape(n);
      SimpleIsNeat(n);
    case Dot(b, n) =>
      PrintShape(b);
      DotShape(Print(b), n);
      SimpleIsNeat(Print(e));
    case At(b, k) =>
      PrintShape(b);
      PrintShape(k);
      AtShape(Print(b), Print(k));
      SimpleIsNeat(Print(e));
    case Not(x) =>
      OperandShape(x);
      NotShape(Operand(x));
      SimpleIsNeat(Print(e));
    case Equal(op, l, r) =>
      OperandShape(l);
      PrintShape(r);
      EqualShape(Operand(l), op, Print(r));
  }

  lemma SimpleIsNeat(s: string)
    requires Simple(s)
    ensures Neat(s)
  {
  }

  lemma WordShapes()
    ensures Simple("true") && Simple("false") && Simple("null") && Simple("undefined")
    ensures Neat("true") && Neat("false") && Neat("null") && Neat("undefined")
  {
    hide Simple;
    hide Neat;
    CalmWord("true");
    CalmWord("false");
    CalmWord("null");
    CalmWord("undefined");
    SimpleIsNeat("true");
    SimpleIsNeat("false");
    SimpleIsNeat("null");
    SimpleIsNeat("undefined");
  }

  lemma {:induction false} OperandShape(e: Expr)
    requires WellFormed(e)
    ensures Neat(Operand(e)) && Flat(Operand(e), 0)
    decreases e, 1
  {
    hide Neat;
    hide WellFormed;
    PrintShape(e);
    if e.Equal? {
      ParensShape(Print(e));
    } else {
      assert Print(e) == Operand(e);
      SimpleIsFlat(Print(e));
    }
  }

  lemma SimpleIsFlat(s: string)
    requires Simple(s)
    ensures Flat(s, 0)
  {
  }

  /* Meaning. */

  /** A tight text that is not one parenthesised whole and has no equality outside its
      brackets is a negation or an atom. */
  lemma SimpleResolves(h: Host, vals: Value, e: string)
    requires Simple(e)
    ensures Resolve(h, vals, e) == if e[0] == '!' then Bool(!h.truthy(Resolve(h, vals, e[1..]))) else ResolveAtom(h, vals, e)
  {
    hide Resolve;
    hide ResolveAtom;
    hide WrapsWhole;
    TrimTight(e);
    NoEquality(e);
    ResolveRest(h, vals, e);
  }

  lemma OperandMeans(h: Host, vals: Value, e: Expr)
    requires WellFormed(e)
    ensures Resolve(h, vals, Operand(e)) == Resolve(h, vals, Print(e))
  {
    hide Resolve;
    hide WellFormed;
    if e.Equal? {
      PrintShape(e);
      WrappingKeepsMeaning(h, vals, Print(e));
    }
  }

  lemma NotMeans(h: Host, vals: Value, x: string)
    requires Neat(x) && Flat(x, 0)
    ensures Resolve(h, vals, "!" + x) == Bool(!h.truthy(Resolve(h, vals, x)))
  {
    hide Resolve;
    hide Neat;
    NotShape(x);
    SimpleResolves(h, vals, "!" + x);
    assert ("!" + x)[1..] == x && ("!" + x)[0] == '!';
  }

  /** The depth reaches zero before the end, so the outer parentheses, if any, are not
      one pair. */
  lemma {:induction false} ReachesZeroEarly(s: string, t: string, d: int)
    requires s != "" && s[|s| - 1] == ')' && d >= 0 && d + Net(s, Round) == 0 && Stays(s, Round, d)
    ensures ReachesZero(s + t, d)
    decreases |s|
  {
    assert (s + t)[1..] == s[1..] + t && (s + t)[0] == s[0];
    if |s| == 1 {
      assert Net(s[1..], Round) == 0;
    } else if !(s[0] == ')' && d == 1) {
      ReachesZeroEarly(s[1..], t, d + Turn(s[0], Round));
    }
  }

  lemma NotOnePair(l: string, rest: string)
    requires Neat(l) && Flat(l, 0) && rest != "" && (l[0] == '(' ==> l[|l| - 1] == ')')
    ensures var e := l + rest; e[0] == '(' ==> !WrapsWhole(e)
  {
    var e := l + rest;
    if e[0] == '(' {
      assert e[..|e| - 1] == l + rest[..|rest| - 1];
      ReachesZeroEarly(l, rest[..|rest| - 1], 0);
    }
  }

  lemma EqualText(l: string, op: Equality, r: string)
    ensures var e, i, s := l + " " + Spelled(op) + " " + r, |l| + 1, Spelled(op);
      && e[..i] == l + " " && e[0..|l|] == l && e[i + |s|..] == " " + r && e[|l|] == ' '
      && |e| > i + 2 && e[i] == s[0] && e[i + 1] == s[1] && e[i + 2] == (if |s| == 3 then s[2] else ' ')
  {
    var e, i, s := l + " " + Spelled(op) + " " + r, |l| + 1, Spelled(op);
    var m := l + " " + s;
    assert e == m + (" " + r) && |m| == i + |s|;
    assert e[i..i + |s|] == s;
  }

  lemma OperatorRead(e: string, i: nat, op: Equality)
    requires 0 < i && i + 2 < |e| && e[i] == Spelled(op)[0] && e[i + 1] == Spelled(op)[1]
    requires e[i + 2] == (if |Spelled(op)| == 3 then Spelled(op)[2] else ' ')
    requires e[i - 1] == ' ' && PseudoCss.Trim(e[..i]) != ""
    ensures EqualityAt(e, i) && OperatorAt(e, i) == op
  {
    hide PseudoCss.Trim;
  }

  lemma OperatorFound(l: string, op: Equality, r: string)
    requires Neat(l) && Flat(l, 0) && Neat(r)
    ensures var e := l + " " + Spelled(op) + " " + r;
      FindEquality(e, 0, 0) == Some(|l| + 1) && OperatorAt(e, |l| + 1) == op
  {
    hide Flat;
    hide EqualityAt;
    hide OperatorAt;
    hide FindEquality;
    hide Spelled;
    hide PseudoCss.Trim;
    hide PseudoCss.IsSpace;
    var e := l + " " + Spelled(op) + " " + r;
    EqualText(l, op, r);
    TrimTight(l);
    OperatorRead(e, |l| + 1, op);
    FindFirst(e, |l|);
  }

  lemma FindFirst(e: string, n: nat)
    requires n + 1 < |e| && e[n] == ' ' && EqualityAt(e, n + 1)
    requires Flat(e[0..n], 0) && Net(e[0..n], Both) == 0
    ensures FindEquality(e, 0, 0) == Some(n + 1)
  {
    hide Flat;
    hide Net;
    hide EqualityAt;
    FindSkips(e, 0, n, 0);
    SpaceIsNoEquality(e, n);
    BracketIsNoEquality(e, n + 1);
  }

  lemma SpaceIsNoEquality(e: string, n: nat)
    requires n < |e| && e[n] == ' '
    ensures !EqualityAt(e, n)
  {
  }

  lemma NeatIsTight(s: string)
    requires Neat(s)
    ensures Tight(s)
  {
  }

  lemma EqualMeans(h: Host, vals: Value, l: string, op: Equality, r: string)
    requires Neat(l) && Flat(l, 0) && Neat(r) && (l[0] == '(' ==> l[|l| - 1] == ')')
    ensures Resolve(h, vals, l + " " + Spelled(op) + " " + r)
            == Bool(Compared(h, op, Resolve(h, vals, l), Resolve(h, vals, r)))
  {
    hide Resolve;
    hide WrapsWhole;
    hide FindEquality;
    hide OperatorAt;
    hide EqualityAt;
    hide PseudoCss.Trim;
    hide Flat;
    hide Neat;
    hide Tight;
    hide Compared;
    hide Spelled;
    var rest := " " + Spelled(op) + " " + r;
    var e := l + " " + Spelled(op) + " " + r;
    assert e == l + rest;
    EqualShape(l, op, r);
    NeatIsTight(e);
    NeatIsTight(l);
    NeatIsTight(r);
    TrimTight(e);
    NotOnePair(l, rest);
    OperatorFound(l, op, r);
    ResolveEquality(h, vals, e);
    EqualText(l, op, r);
    TrimTight(l);
    TrimTight(r);
    ResolveByTrim(h, vals, l + " ", l);
    ResolveByTrim(h, vals, " " + r, r);
  }

  /** The four operators, spelled out, between neat operands. */
  lemma OperatorsMean(h: Host, vals: Value, l: string, r: string)
    requires Neat(l) && Flat(l, 0) && Neat(r) && (l[0] == '(' ==> l[|l| - 1] == ')')
    ensures Resolve(h, vals, l + " === " + r) == Bool(h.strict(Resolve(h, vals, l), Resolve(h, vals, r)))
    ensures Resolve(h, vals, l + " !== " + r) == Bool(!h.strict(Resolve(h, vals, l), Resolve(h, vals, r)))
    ensures Resolve(h, vals, l + " == " + r) == Bool(h.loose(Resolve(h, vals, l), Resolve(h, vals, r)))
    ensures Resolve(h, vals, l + " != " + r) == Bool(!h.loose(Resolve(h, vals, l), Resolve(h, vals, r)))
  {
    hide Resolve;
    hide Neat;
    hide Flat;
    Spaced(l, r);
    EqualMeans(h, vals, l, StrictEq, r);
    EqualMeans(h, vals, l, StrictNe, r);
    EqualMeans(h, vals, l, LooseEq, r);
    EqualMeans(h, vals, l, LooseNe, r);
  }

  lemma Spaced(l: string, r: string)
    ensures l + " " + Spelled(StrictEq) + " " + r == l + " === " + r
    ensures l + " " + Spelled(StrictNe) + " " + r == l + " !== " + r
    ensures l + " " + Spelled(LooseEq) + " " + r == l + " == " + r
    ensures l + " " + Spelled(LooseNe) + " " + r == l + " != " + r
  {
    SpacedOne(l, "===", r);
    SpacedOne(l, "!==", r);
    SpacedOne(l, "==", r);
    SpacedOne(l, "!=", r);
    assert " " + "===" + " " == " === " && " " + "!==" + " " == " !== ";
    assert " " + "==" + " " == " == " && " " + "!=" + " " == " != ";
  }

  lemma SpacedOne(l: string, op: string, r: string)
    ensures l + " " + op + " " + r == l + (" " + op + " ") + r
  {
  }

  lemma {:induction false} RunStops(s: string, rest: string, p: char -> bool)
    requires (forall i | 0 <= i < |s| :: p(s[i])) && (rest != "" ==> !p(rest[0]))
    ensures RunOf(s + rest, p) == |s|
    decreases |s|
  {
    if s == "" {
      assert s + rest == rest;
    } else {
      assert (s + rest)[1..] == s[1..] + rest && (s + rest)[0] == s[0];
      RunStops(s[1..], rest, p);
    }
  }

  predicate EndsKey(rest: string) { rest != "" ==> rest[0] == '.' || rest[0] == '[' }

  lemma NameStops(n: string, rest: string)
    requires IsName(n) && EndsKey(rest)
    ensures NameLength(n + rest) == |n|
  {
    hide RunOf;
    assert (n + rest)[0] == n[0];
    RunStops(n, rest, NameChars());
  }

  lemma KeyStops(n: string, rest: string)
    requires n != "" && KeyLength(n) == |n| && EndsKey(rest)
    ensures KeyLength(n + rest) == |n|
  {
    hide RunOf;
    if NameLength(n) > 0 {
      NameStops(n, rest);
    } else {
      assert Digits()(n[0]);
      assert (n + rest)[0] == n[0];
      RunStops(n, rest, Digits());
    }
  }

  lemma NotKeyword(s: string, i: nat)
    requires i < |s| && !StartsName(s[i])
    ensures s != "true" && s != "false" && s != "null" && s != "undefined"
  {
    assert forall j | 0 <= j < 4 :: StartsName("true"[j]) && StartsName("null"[j]);
    assert forall j | 0 <= j < 5 :: StartsName("false"[j]);
    assert forall j | 0 <= j < 9 :: StartsName("undefined"[j]);
  }

  lemma NotNumber(s: string)
    requires s != "" && s[0] != '-' && !Identifiers.IsDigit(s[0])
    ensures !IsNumber(s)
  {
  }

  lemma NumberMeans(h: Host, vals: Value, t: string)
    requires IsNumber(t)
    ensures Resolve(h, vals, t) == h.number(t)
  {
    hide Resolve;
    hide IsNumber;
    hide Simple;
    NumberShape(t);
    SimpleResolves(h, vals, t);
    NotKeyword(t, 0);
  }

  lemma QuotedMeans(h: Host, vals: Value, q: char, t: string)
    requires PseudoCss.IsQuote(q) && Balanced(t) && Flat(t, 0)
    ensures Resolve(h, vals, [q] + t + [q]) == Text(t)
  {
    hide Resolve;
    hide Simple;
    hide IsNumber;
    hide NameLength;
    var e := [q] + t + [q];
    QuotedShape(q, t);
    SimpleResolves(h, vals, e);
    NotKeyword(e, 0);
    NotNumber(e);
    assert e[1..|e| - 1] == t;
  }

  lemma WordsMean(h: Host, vals: Value)
    ensures Resolve(h, vals, "true") == Bool(true) && Resolve(h, vals, "false") == Bool(false)
    ensures Resolve(h, vals, "null") == Null && Resolve(h, vals, "undefined") == Undefined
  {
    hide Resolve;
    hide Simple;
    WordShapes();
    SimpleResolves(h, vals, "true");
    SimpleResolves(h, vals, "false");
    SimpleResolves(h, vals, "null");
    SimpleResolves(h, vals, "undefined");
  }

  function PathValue(h: Host, vals: Value, t: string): Value {
    var n := NameLength(t);
    if n == 0 then Undefined else PathFrom(h, vals, Member(h, vals, Text(t[..n])), t[n..])
  }

  lemma NameMeans(h: Host, vals: Value, n: string, rest: string)
    requires IsName(n) && EndsKey(rest)
    ensures PathValue(h, vals, n + rest) == PathFrom(h, vals, Member(h, vals, Text(n)), rest)
  {
    hide NameLength;
    hide PathFrom;
    NameStops(n, rest);
    assert (n + rest)[..|n|] == n && (n + rest)[|n|..] == rest;
  }

  lemma DotMeans(h: Host, vals: Value, cur: Value, n: string, rest: string)
    requires n != "" && KeyLength(n) == |n| && EndsKey(rest)
    ensures PathFrom(h, vals, cur, "." + n + rest) == PathFrom(h, vals, Member(h, cur, Text(n)), rest)
  {
    hide KeyLength;
    hide PathFrom;
    var t := "." + n + rest;
    KeyStops(n, rest);
    assert t[1..] == n + rest;
    PathDot(h, vals, cur, t);
    assert t[1..1 + |n|] == n && t[1 + |n|..] == rest;
  }

  lemma AtMeans(h: Host, vals: Value, cur: Value, key: string, rest: string)
    requires BalancedIn(key, Square)
    ensures PathFrom(h, vals, cur, "[" + key + "]" + rest)
            == PathFrom(h, vals, Member(h, cur, Resolve(h, vals, key)), rest)
  {
    hide PathFrom;
    hide Resolve;
    hide CloseAt;
    var t := "[" + key + "]" + rest;
    assert t[1..] == key + "]" + rest;
    ClosesAfter(key, rest);
    PathBracket(h, vals, cur, t);
    assert t[1..1 + |key|] == key && t[|key| + 2..] == rest;
  }

  /** The first character of a path starts a name, and only a bare name is all name. */
  lemma {:induction false} PathText(e: Expr)
    requires WellFormed(e) && IsPath(e)
    ensures var t := Print(e); t != "" && StartsName(t[0])
    ensures var t := Print(e); t != "true" && t != "false" && t != "null" && t != "undefined"
  {
    hide NameLength;
    hide KeyLength;
    match e
    case Name(n) => NameStarts(n);
    case Dot(b, n) =>
      PathText(b);
      NotKeyword(Print(e), |Print(b)|);
    case At(b, k) =>
      PathText(b);
      NotKeyword(Print(e), |Print(b)|);
  }

  lemma NameStarts(n: string)
    requires IsName(n)
    ensures n != "" && StartsName(n[0])
  {
  }

  lemma PathAtom(h: Host, vals: Value, e: Expr)
    requires WellFormed(e) && IsPath(e)
    ensures Resolve(h, vals, Print(e)) == PathValue(h, vals, Print(e))
  {
    hide Resolve;
    hide PathFrom;
    hide IsNumber;
    hide NameLength;
    hide Print;
    hide Simple;
    hide WellFormed;
    PrintShape(e);
    PathText(e);
    SimpleResolves(h, vals, Print(e));
    NotNumber(Print(e));
  }

  lemma Regroup(a: string, b: string, c: string, d: string, rest: string)
    ensures a + b + c + d + rest == a + (b + c + d + rest)
  {
  }

  lemma {:induction false} PathPrefix(h: Host, vals: Value, e: Expr, rest: string)
    requires WellFormed(e) && IsPath(e) && EndsKey(rest)
    ensures PathValue(h, vals, Print(e) + rest) == PathFrom(h, vals, Eval(h, vals, e), rest)
    decreases e, 0
  {
    hide PathValue;
    hide PathFrom;
    hide Resolve;
    hide NameLength;
    hide KeyLength;
    hide Neat;
    SameMeaning(h);
    hide Member;
    hide Get;
    match e
    case Name(n) => NameMeans(h, vals, n, rest);
    case Dot(b, n) =>
      var more := "." + n + rest;
      Regroup(Print(b), ".", n, "", rest);
      assert "." + n + "" == "." + n && Print(b) + "." + n + "" == Print(b) + "." + n;
      PathPrefix(h, vals, b, more);
      DotMeans(h, vals, Eval(h, vals, b), n, rest);
    case At(b, k) =>
      var more := "[" + Print(k) + "]" + rest;
      Regroup(Print(b), "[", Print(k), "]", rest);
      PathPrefix(h, vals, b, more);
      PrintShape(k);
      NeatIsBalanced(Print(k));
      AtMeans(h, vals, Eval(h, vals, b), Print(k), rest);
      TextMeansValue(h, vals, k);
  }

  lemma NeatIsBalanced(s: string)
    requires Neat(s)
    ensures BalancedIn(s, Square)
  {
  }

  /** Resolving the text of an expression gives the value of the expression, on every
      host and for every expression the language can spell. */
  lemma {:induction false} TextMeansValue(h: Host, vals: Value, e: Expr)
    requires WellFormed(e)
    ensures Resolve(h, vals, Print(e)) == Eval(h, vals, e)
    decreases e, 2
  {
    hide Resolve;
    hide PathFrom;
    hide Neat;
    hide Compared;
    hide Flat;
    hide Balanced;
    hide IsNumber;
    hide NameLength;
    hide KeyLength;
    SameMeaning(h);
    hide Get;
    hide Agrees;
    match e
    case TrueWord => WordsMean(h, vals);
    case FalseWord => WordsMean(h, vals);
    case NullWord => WordsMean(h, vals);
    case UndefinedWord => WordsMean(h, vals);
    case Number(t) => NumberMeans(h, vals, t);
    case Quoted(q, t) => QuotedMeans(h, vals, q, t);
    case Name(_) => PathMeans(h, vals, e);
    case Dot(_, _) => PathMeans(h, vals, e);
    case At(_, _) => PathMeans(h, vals, e);
    case Not(x) =>
      OperandShape(x);
      NotMeans(h, vals, Operand(x));
      OperandMeans(h, vals, x);
      TextMeansValue(h, vals, x);
    case Equal(op, l, r) =>
      OperandShape(l);
      PrintShape(r);
      OperandParens(l);
      EqualMeans(h, vals, Operand(l), op, Print(r));
      OperandMeans(h, vals, l);
      TextMeansValue(h, vals, l);
      TextMeansValue(h, vals, r);
  }

  lemma {:induction false} PathMeans(h: Host, vals: Value, e: Expr)
    requires WellFormed(e) && IsPath(e)
    ensures Resolve(h, vals, Print(e)) == Eval(h, vals, e)
    decreases e, 1
  {
    hide Resolve;
    hide PathValue;
    hide Eval;
    hide Print;
    hide WellFormed;
    PathAtom(h, vals, e);
    assert Print(e) + "" == Print(e);
    PathPrefix(h, vals, e, "");
    PathEnd(h, vals, Eval(h, vals, e), "");
  }

  lemma OperandParens(e: Expr)
    requires WellFormed(e)
    ensures var t := Operand(e); t != "" && (t[0] == '(' ==> t[|t| - 1] == ')')
  {
    hide WellFormed;
    PrintShape(e);
  }

  /* What words and numbers are, and what is neither. */

  ghost predicate OnlyDigits(s: string) { s != "" && forall i | 0 <= i < |s| :: '0' <= s[i] <= '9' }

  lemma {:induction false} RunAll(s: string, p: char -> bool)
    ensures RunOf(s, p) == |s| <==> forall i | 0 <= i < |s| :: p(s[i])
  {
    if s != "" && p(s[0]) {
      RunAll(s[1..], p);
    }
  }

  lemma DigitsAre(s: string)
    ensures AllDigits(s) <==> OnlyDigits(s)
  {
    hide RunOf;
    RunAll(s, Digits());
    assert forall i | 0 <= i < |s| :: Digits()(s[i]) <==> '0' <= s[i] <= '9';
  }

  /** A name is a letter, underscore or dollar sign followed by any of these and digits. */
  lemma NamesAre(s: string)
    ensures IsName(s) <==>
      s != "" && !('0' <= s[0] <= '9')
      && forall i | 0 <= i < |s| :: 'a' <= s[i] <= 'z' || 'A' <= s[i] <= 'Z' || s[i] == '_' || s[i] == '$' || '0' <= s[i] <= '9'
  {
    hide RunOf;
    RunAll(s, NameChars());
    assert forall i | 0 <= i < |s| :: NameChars()(s[i]) <==> StartsName(s[i]) || Identifiers.IsDigit(s[i]);
  }

  /** A key after a dot is a name or a run of digits. */
  lemma KeysAre(s: string)
    requires s != ""
    ensures KeyLength(s) == |s| <==> IsName(s) || OnlyDigits(s)
  {
    hide RunOf;
    RunAll(s, Digits());
    assert forall i | 0 <= i < |s| :: Digits()(s[i]) <==> '0' <= s[i] <= '9';
  }

  /** A number is digits, perhaps a dot and more digits, perhaps a minus in front. */
  lemma NumbersAre(s: string)
    ensures IsNumber(s) <==> Unsigned(s) || (s != "" && s[0] == '-' && Unsigned(s[1..]))
  {
    hide RunOf;
    if s != "" && s[0] == '-' {
      UnsignedAre(s[1..]);
      UnsignedStart(s);
    } else {
      UnsignedAre(s);
    }
  }

  ghost predicate Unsigned(s: string) {
    exists n: nat :: n <= |s| && OnlyDigits(s[..n]) && (n == |s| || (s[n] == '.' && OnlyDigits(s[n + 1..])))
  }

  lemma UnsignedStart(s: string)
    ensures Unsigned(s) ==> s != "" && '0' <= s[0] <= '9'
  {
    if Unsigned(s) {
      var n: nat :| n <= |s| && OnlyDigits(s[..n]);
      assert s[..n][0] == s[0];
    }
  }

  /** A run of digits that is followed by something else is the whole run. */
  lemma RunIs(t: string, k: nat)
    requires k <= |t| && OnlyDigits(t[..k]) && (k < |t| ==> !('0' <= t[k] <= '9'))
    ensures RunOf(t, Digits()) == k
  {
    hide RunOf;
    var n := RunOf(t, Digits());
    assert forall i | 0 <= i < |t| :: Digits()(t[i]) <==> '0' <= t[i] <= '9';
    assert forall i | 0 <= i < k :: t[..k][i] == t[i];
    assert n < |t| ==> !Digits()(t[n]);
    assert forall i | 0 <= i < n :: Digits()(t[i]);
  }

  lemma UnsignedAre(t: string)
    ensures Unsigned(t) <==> var n := RunOf(t, Digits()); n > 0 && (n == |t| || (t[n] == '.' && AllDigits(t[n + 1..])))
  {
    hide RunOf;
    hide OnlyDigits;
    hide AllDigits;
    var n := RunOf(t, Digits());
    RunIsDigits(t);
    if n < |t| {
      DigitsAre(t[n + 1..]);
    }
    if k: nat :| k <= |t| && OnlyDigits(t[..k]) && (k == |t| || (t[k] == '.' && OnlyDigits(t[k + 1..]))) {
      RunIs(t, k);
      NoDigitsInNothing();
    }
  }

  lemma NoDigitsInNothing()
    ensures !OnlyDigits("")
  {
  }

  lemma RunIsDigits(t: string)
    ensures var n := RunOf(t, Digits()); n > 0 ==> OnlyDigits(t[..n])
  {
    hide RunOf;
    var n := RunOf(t, Digits());
    forall i | 0 <= i < n ensures '0' <= t[..n][i] <= '9' {
      assert Digits()(t[i]);
    }
  }

  /** A path that goes on with something other than a dot or a bracket is undefined. */
  lemma JunkIsUndefined(h: Host, vals: Value, cur: Value, t: string)
    requires t != "" && t[0] != '.' && t[0] != '['
    ensures PathFrom(h, vals, cur, t) == Undefined
  {
    hide PathFrom;
    PathEnd(h, vals, cur, t);
  }

  /** So is one with a dot and no key. */
  lemma NoKeyIsUndefined(h: Host, vals: Value, cur: Value, t: string)
    requires t != "" && t[0] == '.' && (|t| == 1 || !(StartsName(t[1]) || Identifiers.IsDigit(t[1])))
    ensures PathFrom(h, vals, cur, t) == Undefined
  {
    hide PathFrom;
    PathDot(h, vals, cur, t);
    if |t| > 1 {
      assert t[1..][0] == t[1];
    }
  }

  /** And one with a bracket that is never closed. */
  lemma UnclosedIsUndefined(h: Host, vals: Value, cur: Value, t: string)
    requires t != "" && t[0] == '[' && Stays(t[1..], Square, 0)
    ensures PathFrom(h, vals, cur, t) == Undefined
  {
    hide PathFrom;
    hide CloseAt;
    hide Resolve;
    var rest := t[1..];
    PathBracket(h, vals, cur, t);
    assert rest + "" == rest;
    CloseSkips(rest, "", 1);
    NothingCloses(1 + Net(rest, Square));
  }

  lemma NothingCloses(d: int)
    requires d >= 1
    ensures CloseAt("", d) == None
  {
  }

  /** An equality operator of the text itself outside its brackets, counting them from
      the start of the text. */
  predicate OperatorOutside(t: string) {
    exists i :: 0 <= i < |t| && OperatorOutsideAt(t, i)
  }

  predicate OperatorOutsideAt(t: string, i: nat)
    requires i < |t|
  {
    Net(t[..i], Both) == 0 && PairAt(t[i..]) && !(i > 0 && (t[i - 1] == '=' || t[i - 1] == '!'))
  }

  lemma {:induction false} FindEqualityIff(s: string, i: nat, d: int)
    requires i <= |s| && d == Net(s[..i], Both)
    ensures FindEquality(s, i, d).None? <==> forall j | i <= j < |s| :: !(Net(s[..j], Both) == 0 && EqualityAt(s, j))
    decreases |s| - i
  {
    hide EqualityAt;
    if i < |s| {
      assert s[..i + 1] == s[..i] + [s[i]];
      NetSplit(s[..i], [s[i]], Both);
      OneNet(s[i], Both);
      FindEqualityIff(s, i + 1, d + Turn(s[i], Both));
      BracketIsNoEquality(s, i);
    }
  }

  lemma BracketIsNoEquality(s: string, i: nat)
    requires i < |s|
    ensures IsBracket(s[i]) ==> !EqualityAt(s, i)
  {
  }

  /** Inside quotes an operator is recognised just as outside: behind the opening
      quote there is always something to compare. */
  lemma QuotedOperator(q: char, t: string, i: nat)
    requires PseudoCss.IsQuote(q) && i < |t|
    ensures var e := [q] + t + [q];
      Net(e[..i + 1], Both) == 0 && EqualityAt(e, i + 1) <==> OperatorOutsideAt(t, i)
  {
    var e := [q] + t + [q];
    assert e[..i + 1] == [q] + t[..i];
    NetSplit([q], t[..i], Both);
    OneNet(q, Both);
    QuoteIsNotBlank(q, t[..i]);
    assert e[i + 1] == t[i] && e[i] == (if i == 0 then q else t[i - 1]);
    assert e[i + 2] == (if i + 1 < |t| then t[i + 1] else q);
  }

  lemma QuoteIsNotBlank(q: char, t: string)
    requires PseudoCss.IsQuote(q)
    ensures PseudoCss.Trim([q] + t) != ""
  {
    assert PseudoCss.SpaceRun([q] + t) == 0;
    TrimRightKeepsFront([q] + t);
  }

  lemma {:induction false} TrimRightKeepsFront(s: string)
    requires s != "" && !PseudoCss.IsSpace(s[0])
    ensures PseudoCss.TrimRight(s) != ""
    decreases |s|
  {
    if |s| > 1 {
      TrimRightKeepsFront(s[..|s| - 1]);
    }
  }

  lemma QuoteIsNoEquality(q: char, t: string)
    requires PseudoCss.IsQuote(q)
    ensures !EqualityAt([q] + t + [q], 0) && !EqualityAt([q] + t + [q], |t| + 1)
  {
  }

  lemma QuotedFound(q: char, t: string)
    requires PseudoCss.IsQuote(q)
    ensures FindEquality([q] + t + [q], 0, 0).Some? <==> OperatorOutside(t)
  {
    hide FindEquality;
    hide EqualityAt;
    hide OperatorOutsideAt;
    hide Net;
    var e := [q] + t + [q];
    assert e[..0] == "";
    EmptyNet();
    FindEqualityIff(e, 0, 0);
    QuoteIsNoEquality(q, t);
    forall i | 0 <= i < |t| ensures Net(e[..i + 1], Both) == 0 && EqualityAt(e, i + 1) <==> OperatorOutsideAt(t, i) {
      QuotedOperator(q, t, i);
    }
    if j :| 0 <= j < |e| && Net(e[..j], Both) == 0 && EqualityAt(e, j) {
      assert OperatorOutsideAt(t, j - 1);
    }
    if i :| 0 <= i < |t| && OperatorOutsideAt(t, i) {
      assert EqualityAt(e, i + 1) && Net(e[..i + 1], Both) == 0;
    }
  }

  lemma EmptyNet()
    ensures Net("", Both) == 0
  {
  }

  lemma QuotedAlone(h: Host, vals: Value, q: char, t: string)
    requires PseudoCss.IsQuote(q)
    ensures Resolve(h, vals, [q] + t + [q]) == Text(t) <==> !OperatorOutside(t)
  {
    hide Resolve;
    hide IsNumber;
    hide FindEquality;
    hide EqualityAt;
    hide OperatorAt;
    hide NameLength;
    hide OperatorOutside;
    var e := [q] + t + [q];
    TrimTight(e);
    QuotedFound(q, t);
    if FindEquality(e, 0, 0).None? {
      ResolveRest(h, vals, e);
      NotKeyword(e, 0);
      NotNumber(e);
      assert e[1..|e| - 1] == t;
    } else {
      ResolveEquality(h, vals, e);
    }
  }

  /** A quoted text, taken alone, resolves to the text exactly when it has no equality
      operator outside its brackets: the scan knows nothing of quotes. */
  lemma QuotedIff(h: Host, vals: Value, q: char, t: string)
    requires q == '\'' || q == '"'
    ensures Resolve(h, vals, [q] + t + [q]) == Text(t) <==> !OperatorOutside(t)
  {
    hide Resolve;
    hide OperatorOutside;
    QuotedAlone(h, vals, q, t);
  }

  /** The text a==b in quotes is a comparison, not the text. */
  lemma QuotedEqualityIsSplit(h: Host, vals: Value)
    ensures Resolve(h, vals, "'a==b'") != Text("a==b")
  {
    hide Resolve;
    var t := "a==b";
    assert t[..1] == "a" && ['\''] + t + ['\''] == "'a==b'";
    OneNet('a', Both);
    assert OperatorOutsideAt(t, 1);
    QuotedIff(h, vals, '\'', t);
  }
}
