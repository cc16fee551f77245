/** Row ids: "<class>-u7", "<class>-b2", "<class>-log31". Numbers are printed in
    decimal and read back with the rules of the host language's integer parser
    (ASCII input). */
module Identifiers {
  import opened Wrappers

  predicate IsDigit(c: char) { '0' <= c <= '9' }

  function DigitValue(c: char): (d: nat)
    requires IsDigit(c)
    ensures d < 10
  {
    c as int - '0' as int
  }

  function DigitChar(d: nat): (c: char)
    requires d < 10
    ensures IsDigit(c) && DigitValue(c) == d
  {
    ('0' as int + d) as char
  }

  /** The decimal numeral of n, as a format string prints it. */
  function Decimal(n: nat): (s: string)
    ensures s != [] && forall c | c in s :: IsDigit(c)
  {
    if n < 10 then [DigitChar(n)] else Decimal(n / 10) + [DigitChar(n % 10)]
  }

  predicate IsBlank(c: char) { c in {' ', '\t', '\n', '\r', '\U{000B}', '\U{000C}'} }

  function TrimBlanks(s: string): (r: string)
    decreases |s|
  {
    if s == [] then []
    else if IsBlank(s[0]) then TrimBlanks(s[1..])
    else if IsBlank(s[|s| - 1]) then TrimBlanks(s[..|s| - 1])
    else s
  }

  /** Digits, with single underscores allowed between two digits. */
  function ParseDigits(s: string): (r: Option<nat>) {
    if s == [] || !IsDigit(s[|s| - 1]) then None
    else
      var init, d := s[..|s| - 1], DigitValue(s[|s| - 1]);
      if init == [] then Some(d)
      else
        match ParseDigits(if init[|init| - 1] == '_' then init[..|init| - 1] else init)
        case None => None
        case Some(v) => Some(10 * v + d)
  }

  function Negated(v: Option<int>): (r: Option<int>) {
    match v case None => None case Some(n) => Some(-n)
  }

  /** int(s); None is the ValueError. */
  function ParseInt(s: string): (r: Option<int>) {
    var t := TrimBlanks(s);
    if t == [] then None
    else if t[0] == '-' then
      Negated(ParseDigits(t[1..]))
    else
      ParseDigits(if t[0] == '+' then t[1..] else t)
  }

  lemma {:induction false} DigitsRoundTrip(n: nat)
    ensures ParseDigits(Decimal(n)) == Some(n)
  {
    if n < 10 {
      assert Decimal(n)[..0] == [];
    } else {
      var init, last := Decimal(n / 10), DigitChar(n % 10);
      DigitsRoundTrip(n / 10);
      assert Decimal(n) == init + [last];
      OneMoreDigit(init, last);
    }
  }

  lemma OneMoreDigit(init: string, last: char)
    requires init != [] && IsDigit(last) && forall c | c in init :: IsDigit(c)
    ensures ParseDigits(init + [last])
            == match ParseDigits(init) case None => None case Some(v) => Some(10 * v + DigitValue(last))
  {
    assert (init + [last])[..|init|] == init;
    assert init[|init| - 1] in init;
  }

  /** A numeral reads back as the number it was printed from. */
  lemma DecimalRoundTrip(n: nat)
    ensures ParseInt(Decimal(n)) == Some(n)
  {
    hide ParseDigits;
    hide Decimal;
    var s := Decimal(n);
    DigitsRoundTrip(n);
    assert s[0] in s && s[|s| - 1] in s;
    assert TrimBlanks(s) == s;
  }

  /** The number an existing id contributes: nothing if it does not start with
      the prefix or the rest is not a number. */
  function Suffix(id: string, prefix: string): (r: Option<int>) {
    if prefix <= id then ParseInt(id[|prefix|..]) else None
  }

  function LargestSuffix(ids: seq<string>, prefix: string): (m: nat)
    ensures forall id | id in ids && Suffix(id, prefix).Some? :: Suffix(id, prefix).value <= m
  {
    if ids == [] then 0
    else
      var m := LargestSuffix(ids[..|ids| - 1], prefix);
      var last := ids[|ids| - 1];
      assert forall id | id in ids :: id in ids[..|ids| - 1] || id == last;
      match Suffix(last, prefix)
      case None => m
      case Some(v) => if v > m then v else m
  }

  /** The largest number is one of the numbers, or zero if none is positive. */
  lemma {:induction false} LargestIsAttained(ids: seq<string>, prefix: string)
    ensures LargestSuffix(ids, prefix) == 0 || exists id :: id in ids && Suffix(id, prefix) == Some(LargestSuffix(ids, prefix) as int)
    decreases |ids|
  {
    hide Suffix;
    if ids != [] {
      var init, last := ids[..|ids| - 1], ids[|ids| - 1];
      LargestIsAttained(init, prefix);
      assert last in ids;
      if LargestSuffix(ids, prefix) == LargestSuffix(init, prefix) && LargestSuffix(ids, prefix) != 0 {
        var id :| id in init && Suffix(id, prefix) == Some(LargestSuffix(init, prefix) as int);
        assert id in ids;
      }
    }
  }

  function NextId(ids: seq<string>, prefix: string): (id: string) {
    prefix + Decimal(LargestSuffix(ids, prefix) + 1)
  }

  /** A new id repeats none of the ids it was computed from, whatever they are. */
  lemma NextIdFresh(ids: seq<string>, prefix: string)
    ensures NextId(ids, prefix) !in ids
    ensures OfForm(NextId(ids, prefix), prefix)
  {
    var n := LargestSuffix(ids, prefix) + 1;
    var id := NextId(ids, prefix);
    assert id[|prefix|..] == Decimal(n);
    DecimalRoundTrip(n);
    assert Suffix(id, prefix) == Some(n);
    forall i | |prefix| <= i < |id| ensures IsDigit(id[i]) {
      assert id[i] == Decimal(n)[i - |prefix|];
    }
  }

  /** A text that neither starts nor ends in a blank is not trimmed. */
  lemma TightIsKept(s: string)
    requires s != "" && !IsBlank(s[0]) && !IsBlank(s[|s| - 1])
    ensures TrimBlanks(s) == s && TrimBlanks(s + "\n") == s && TrimBlanks(" " + s + "\n") == s
  {
    hide IsBlank;
    assert IsBlank(' ') && IsBlank('\n') by {
      BlanksAre();
    }
    var t := s + "\n";
    assert t[0] == s[0] && t[|s|] == '\n' && t[..|s|] == s;
    assert TrimBlanks(t) == s;
    var u := " " + t;
    assert " " + s + "\n" == u && u[0] == ' ' && u[1..] == t;
  }

  lemma BlanksAre()
    ensures IsBlank(' ') && IsBlank('\n')
    ensures forall c :: IsDigit(c) || c == '-' || c == '+' ==> !IsBlank(c)
  {
  }

  /** Signs and surrounding blanks are read as the integer parser reads them: a negative
      number never raises the count. */
  lemma SignedNumerals(n: nat)
    ensures var m: int := n; ParseInt("-" + Decimal(n)) == Some(-m) && ParseInt("+" + Decimal(n)) == Some(m)
    ensures ParseInt(" " + Decimal(n) + "\n") == Some(n as int)
  {
    hide ParseDigits;
    hide Decimal;
    hide TrimBlanks;
    hide IsBlank;
    var s := Decimal(n);
    DigitsRoundTrip(n);
    BlanksAre();
    assert s[0] in s && s[|s| - 1] in s;
    var minus, plus := "-" + s, "+" + s;
    assert minus[0] == '-' && minus[|s|] == s[|s| - 1] && minus[1..] == s;
    assert plus[0] == '+' && plus[|s|] == s[|s| - 1] && plus[1..] == s;
    TightIsKept(minus);
    TightIsKept(plus);
    TightIsKept(s);
  }

  /** Numbering continues behind the largest number in use. */
  lemma NextIdContinues(ids: seq<string>, prefix: string, n: nat)
    requires n > 0 ==> prefix + Decimal(n) in ids
    requires forall id | id in ids && Suffix(id, prefix).Some? :: Suffix(id, prefix).value <= n
    ensures NextId(ids, prefix) == prefix + Decimal(n + 1)
  {
    hide ParseInt;
    hide Decimal;
    LargestIsAttained(ids, prefix);
    if n > 0 {
      var id := prefix + Decimal(n);
      DecimalRoundTrip(n);
      assert id[|prefix|..] == Decimal(n);
      assert Suffix(id, prefix) == Some(n);
    }
  }

  method ComputeNextId(ids: seq<string>, prefix: string) returns (id: string)
    ensures id == NextId(ids, prefix)
    ensures id !in ids && OfForm(id, prefix)
  {
    var largest: nat := 0;
    for i := 0 to |ids|
      invariant largest == LargestSuffix(ids[..i], prefix)
    {
      assert ids[..i + 1][..i] == ids[..i];
      if prefix <= ids[i] {
        var parsed := ParseInt(ids[i][|prefix|..]);
        if parsed.Some? && parsed.value > largest {
          largest := parsed.value;
        }
      }
    }
    assert ids[..|ids|] == ids;
    id := prefix + Decimal(largest + 1);
    NextIdFresh(ids, prefix);
  }

  /** prefix followed by at least one digit and nothing else. */
  predicate OfForm(id: string, prefix: string) {
    prefix <= id && |id| > |prefix| && forall i | |prefix| <= i < |id| :: IsDigit(id[i])
  }

  predicate EndsInLetter(p: string) { p != [] && !IsDigit(p[|p| - 1]) }

  lemma FormDeterminesPrefix(id: string, p: string, q: string)
    requires OfForm(id, p) && OfForm(id, q) && EndsInLetter(p) && EndsInLetter(q)
    ensures p == q
  {
    var i, j := |p| - 1, |q| - 1;
    assert id[i] == p[i] && id[j] == q[j];
    assert i < |q| && j < |p|;
    assert p == id[..|p|] && q == id[..|q|];
  }

  /** Ids built for two different classes are different, although each was made
      by looking at the ids of its own class only. */
  lemma ClassesNeverCollide(id: string, c: string, d: string, tag: string)
    requires EndsInLetter(tag)
    requires OfForm(id, c + tag) && OfForm(id, d + tag)
    ensures c == d
  {
    assert (c + tag)[|c + tag| - 1] == tag[|tag| - 1] && (d + tag)[|d + tag| - 1] == tag[|tag| - 1];
    FormDeterminesPrefix(id, c + tag, d + tag);
    assert (c + tag)[..|c|] == c && (d + tag)[..|d|] == d;
  }
}
