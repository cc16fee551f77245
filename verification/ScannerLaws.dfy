/** What the style-text scanners make of each kind of text, one kind at a time: comments,
    quoted strings, unquoted urls and everything else. Together with the empty text these
    laws say what is left of every text. */
module ScannerLaws {
  import opened Sequences
  import opened PseudoCss
  import opened PseudoCssLaws
  import opened ImportantLaws

  /* Comments. */

  /** "*" followed by "/" does not occur. */
  ghost predicate NoEnd(c: string) { forall i, j | 0 <= i < j < |c| && j == i + 1 :: !(c[i] == '*' && c[j] == '/') }

  lemma NoEndRest(c: string)
    requires NoEnd(c) && c != ""
    ensures NoEnd(c[1..])
  {
    forall i, j | 0 <= i < j < |c| - 1 && j == i + 1 ensures !(c[1..][i] == '*' && c[1..][j] == '/') {
      assert c[i + 1] == c[1..][i] && c[j + 1] == c[1..][j];
    }
  }

  lemma {:induction false} EndBehind(c: string, y: string)
    requires NoEnd(c)
    ensures EndComment(c + "*/" + y) == |c| + 2
    decreases |c|
  {
    var t := c + "*/" + y;
    if c == "" {
      assert t[0] == '*' && t[1] == '/';
    } else {
      assert t[0] == c[0] && t[1] == (if |c| > 1 then c[1] else '*');
      assert t[1..] == c[1..] + "*/" + y;
      NoEndRest(c);
      EndBehind(c[1..], y);
    }
  }

  lemma {:induction false} NoEndAtAll(c: string)
    requires NoEnd(c)
    ensures EndComment(c) == |c|
    decreases |c|
  {
    if |c| >= 2 {
      NoEndRest(c);
      NoEndAtAll(c[1..]);
    }
  }

  /** A comment becomes one space, and what follows it is kept. */
  lemma CommentIsSpace(c: string, y: string, word: bool)
    requires NoEnd(c)
    ensures Strip("/*" + c + "*/" + y, word) == " " + Strip(y, false)
  {
    hide EndComment;
    hide Strip;
    hide IsWord;
    var s := "/*" + c + "*/" + y;
    assert s[2..] == c + "*/" + y && s[0] == '/' && s[1] == '*';
    EndBehind(c, y);
    StripStep(s, word);
    assert s[|c| + 4..] == y && s[|c| + 3] == '/';
    SlashIsNoWord();
  }

  lemma SlashIsNoWord()
    ensures !IsWord('/') && !IsWord(')') && !IsWord('\'') && !IsWord('"')
  {
  }

  /** A comment that is never closed runs to the end. */
  lemma OpenCommentIsSpace(c: string, word: bool)
    requires NoEnd(c)
    ensures Strip("/*" + c, word) == " "
  {
    hide EndComment;
    hide Strip;
    var s := "/*" + c;
    assert s[2..] == c && s[0] == '/' && s[1] == '*';
    NoEndAtAll(c);
    StripStep(s, word);
    StripHead(s[|s|..], IsWord(s[|s| - 1]));
  }

  /* Quoted strings and urls. */

  /** Characters up to a closing delimiter: none of them is the delimiter unless a backslash
      stands before it. */
  predicate Inside(b: string, close: char) {
    b == "" || (if b[0] == '\\' then |b| > 1 && Inside(b[2..], close) else b[0] != close && Inside(b[1..], close))
  }

  /** The same, but a last backslash may stand alone. */
  predicate Unclosed(b: string, close: char) {
    b == "" || (if b[0] == '\\' then |b| == 1 || Unclosed(b[2..], close) else b[0] != close && Unclosed(b[1..], close))
  }

  lemma {:induction false} TailBehind(b: string, close: char, y: string)
    requires Inside(b, close) && close != '\\'
    ensures Tail(b + [close] + y, close) == |b| + 1
    decreases |b|
  {
    var t := b + [close] + y;
    if b != "" {
      assert t[0] == b[0];
      if b[0] == '\\' {
        assert t[2..] == b[2..] + [close] + y;
        TailBehind(b[2..], close, y);
      } else {
        assert t[1..] == b[1..] + [close] + y;
        TailBehind(b[1..], close, y);
      }
    }
  }

  lemma {:induction false} TailOpen(b: string, close: char)
    requires Unclosed(b, close)
    ensures Tail(b, close) == |b|
    decreases |b|
  {
    if b != "" {
      if b[0] == '\\' {
        if |b| > 1 {
          TailOpen(b[2..], close);
        }
      } else {
        TailOpen(b[1..], close);
      }
    }
  }

  /** A quoted string is kept as it is, whatever looks like a comment in it; an escaped quote
      does not end it. */
  lemma QuotedIsKept(q: char, b: string, y: string, word: bool)
    requires (q == '\'' || q == '"') && Inside(b, q)
    ensures Strip([q] + b + [q] + y, word) == [q] + b + [q] + Strip(y, false)
  {
    hide Tail;
    hide Strip;
    hide IsWord;
    var s := [q] + b + [q] + y;
    assert s[1..] == b + [q] + y && s[0] == q;
    TailBehind(b, q, y);
    StripStep(s, word);
    assert s[..|b| + 2] == [q] + b + [q] && s[|b| + 2..] == y && s[|b| + 1] == q;
    SlashIsNoWord();
  }

  lemma OpenQuoteIsKept(q: char, b: string, word: bool)
    requires (q == '\'' || q == '"') && Unclosed(b, q)
    ensures Strip([q] + b, word) == [q] + b
  {
    hide Tail;
    hide Strip;
    var s := [q] + b;
    assert s[1..] == b && s[0] == q;
    TailOpen(b, q);
    StripStep(s, word);
    StripHead(s[|s|..], IsWord(s[|s| - 1]));
    assert s[..|s|] == s;
  }

  /** The four characters u, r, l and an opening parenthesis, in any case. */
  predicate IsUrlHead(u: string) {
    |u| == 4 && (u[0] == 'u' || u[0] == 'U') && (u[1] == 'r' || u[1] == 'R') && (u[2] == 'l' || u[2] == 'L') && u[3] == '('
  }

  /** Spaces and then a quote. */
  ghost predicate QuoteFirst(b: string) {
    exists i :: 0 <= i < |b| && IsQuote(b[i]) && forall j | 0 <= j < i :: IsSpace(b[j])
  }

  lemma {:induction false} QuoteFirstIs(b: string)
    ensures QuoteAfterSpaces(b) <==> QuoteFirst(b)
    decreases |b|
  {
    hide IsSpace;
    hide QuoteAfterSpaces;
    QuoteAfterSpacesStep(b);
    if b != "" {
      QuoteFirstIs(b[1..]);
      if IsQuote(b[0]) {
        QuoteIsNoSpace(b[0]);
        assert QuoteFirst(b);
      } else {
        if i :| 0 <= i < |b| && IsQuote(b[i]) && forall j | 0 <= j < i :: IsSpace(b[j]) {
          assert i > 0 && IsSpace(b[0]);
          assert b[1..][i - 1] == b[i] && forall j | 0 <= j < i - 1 :: b[1..][j] == b[j + 1];
        }
        if i :| 0 <= i < |b| - 1 && IsQuote(b[1..][i]) && (forall j | 0 <= j < i :: IsSpace(b[1..][j])) && IsSpace(b[0]) {
          assert b[i + 1] == b[1..][i] && forall j | 0 < j < i + 1 :: b[j] == b[1..][j - 1];
        }
      }
    }
  }

  /** What follows the closing parenthesis has no say in whether a quote comes first. */
  lemma QuoteFirstInside(b: string, y: string)
    ensures QuoteFirst(b + ")" + y) <==> QuoteFirst(b)
  {
    var t := b + ")" + y;
    assert forall j | 0 <= j < |b| :: t[j] == b[j];
    assert t[|b|] == ')' && !IsSpace(')') && !IsQuote(')');
    if i :| 0 <= i < |t| && IsQuote(t[i]) && forall j | 0 <= j < i :: IsSpace(t[j]) {
      assert i != |b|;
      assert forall j | 0 <= j < i :: t[j] != ')';
      assert IsQuote(b[i]);
    }
    if i :| 0 <= i < |b| && IsQuote(b[i]) && forall j | 0 <= j < i :: IsSpace(b[j]) {
      assert IsQuote(t[i]);
    }
  }

  /** An unquoted url is kept up to its parenthesis, whatever looks like a comment or a quote
      in it, unless a word character stands before it. */
  lemma UrlIsKept(u: string, b: string, y: string)
    requires IsUrlHead(u) && Inside(b, ')') && !QuoteFirst(b)
    ensures Strip(u + b + ")" + y, false) == u + b + ")" + Strip(y, false)
  {
    hide Tail;
    hide Strip;
    hide IsWord;
    hide IsSpace;
    hide QuoteAfterSpaces;
    hide QuoteFirst;
    var s := u + b + ")" + y;
    assert s[4..] == b + ")" + y && s[..4] == u;
    UrlToken(u, s);
    QuoteFirstIs(s[4..]);
    QuoteFirstInside(b, y);
    TailBehind(b, ')', y);
    assert [')'] == ")";
    StripStep(s, false);
    assert s[..|b| + 5] == u + b + ")" && s[|b| + 5..] == y && s[|b| + 4] == ')';
    SlashIsNoWord();
  }

  lemma UrlToken(u: string, s: string)
    requires IsUrlHead(u) && |s| >= 4 && s[..4] == u
    ensures UrlHead(s) && !IsQuote(s[0]) && s[0] != '/'
    ensures !QuoteAfterSpaces(s[4..]) ==> Token(s, false) == (Url, 4 + Tail(s[4..], ')'))
  {
    hide Tail;
    hide QuoteAfterSpaces;
    assert s[0] == u[0] && s[1] == u[1] && s[2] == u[2] && s[3] == u[3];
  }

  lemma OpenUrlIsKept(u: string, b: string)
    requires IsUrlHead(u) && Unclosed(b, ')') && !QuoteFirst(b)
    ensures Strip(u + b, false) == u + b
  {
    hide Tail;
    hide Strip;
    hide IsWord;
    hide IsSpace;
    hide QuoteAfterSpaces;
    hide QuoteFirst;
    var s := u + b;
    assert s[4..] == b && s[..4] == u;
    UrlToken(u, s);
    QuoteFirstIs(b);
    TailOpen(b, ')');
    StripStep(s, false);
    StripHead(s[|s|..], IsWord(s[|s| - 1]));
    assert s[..|s|] == s;
  }

  /** A url( opens here: nothing of a word stands before it and no quote comes first. */
  ghost predicate OpensUrl(s: string, word: bool) {
    !word && |s| >= 4 && IsUrlHead(s[..4]) && !QuoteFirst(s[4..])
  }

  /** Any other character is kept and passed over. */
  lemma OtherIsKept(c: char, y: string, word: bool)
    requires c != '\'' && c != '"' && !(c == '/' && y != "" && y[0] == '*') && !OpensUrl([c] + y, word)
    ensures Strip([c] + y, word) == [c] + Strip(y, WordCharacter(c))
  {
    hide Tail;
    hide EndComment;
    hide Strip;
    hide IsWord;
    hide QuoteAfterSpaces;
    hide QuoteFirst;
    var s := [c] + y;
    assert s[0] == c && s[1..] == y && (y != "" ==> s[1] == y[0]);
    if |s| >= 4 {
      QuoteFirstIs(s[4..]);
      assert UrlHead(s) ==> IsUrlHead(s[..4]);
    }
    StripStep(s, word);
    WordsAre(c);
  }

  /** A letter, a digit, an underscore or a hyphen. */
  predicate WordCharacter(c: char) {
    var n := c as int;
    0x61 <= n <= 0x7A || 0x41 <= n <= 0x5A || 0x30 <= n <= 0x39 || n == 0x5F || n == 0x2D
  }

  lemma WordsAre(c: char)
    ensures IsWord(c) <==> WordCharacter(c)
  {
  }

  /** The white space and line ends of the language, by code point. */
  lemma SpacesAre(c: char)
    ensures IsSpace(c) <==>
      var n := c as int;
      0x09 <= n <= 0x0D || n == 0x20 || n == 0xA0 || n == 0x1680 || 0x2000 <= n <= 0x200A || n == 0x2028 || n == 0x2029
      || n == 0x202F || n == 0x205F || n == 0x3000 || n == 0xFEFF
  {
  }

  /* Behind other text. */

  /** Quoted strings and urls are closed and there is no comment. */
  predicate Whole(p: string, word: bool)
    decreases |p|
  {
    p != "" ==> Settled(p, word) && var n := Token(p, word).1; Whole(p[n..], IsWord(p[n - 1]))
  }

  lemma {:induction false} StripThen(p: string, y: string, word: bool)
    requires Whole(p, word) && Separates(y)
    ensures Strip(p + y, word) == p + Strip(y, LastWord(p, word))
    decreases |p|
  {
    hide Token;
    hide Strip;
    hide Settled;
    hide Separates;
    hide IsWord;
    if p == "" {
      assert p + y == y;
    } else {
      var (kind, n) := Token(p, word);
      TokenIn(p, y, word);
      SettledKind(p, word);
      StripStep(p + y, word);
      assert (p + y)[n..] == p[n..] + y && (p + y)[n - 1] == p[n - 1] && (p + y)[..n] == p[..n];
      LastWordRest(p, n, word);
      StripThen(p[n..], y, IsWord(p[n - 1]));
      assert p == p[..n] + p[n..];
    }
  }

  /** A comment behind such text becomes a space there, and the text on both sides is kept. */
  lemma CommentBehind(x: string, c: string, y: string)
    requires Whole(x, false) && NoEnd(c)
    ensures Strip(x + "/*" + c + "*/" + y, false) == x + " " + Strip(y, false)
  {
    hide Strip;
    hide Whole;
    var rest := "/*" + c + "*/" + y;
    assert x + "/*" + c + "*/" + y == x + rest;
    SlashSeparates(rest);
    StripThen(x, rest, false);
    CommentIsSpace(c, y, LastWord(x, false));
  }

  lemma SlashSeparates(y: string)
    requires y != "" && y[0] == '/'
    ensures Separates(y)
  {
    assert !IsSpace('/');
  }

  /* Splitting and marking. */

  /** Splitting loses nothing: the pieces joined by semicolons are the text. */
  lemma {:induction false} SplitLosesNothing(s: string)
    ensures Join(Split(s)) == s
    decreases |s|
  {
    hide FirstSemi;
    var k := FirstSemi(s, false, 0);
    if k < |s| {
      SemiThere(s, false, 0);
      SplitLosesNothing(s[k + 1..]);
      var rest := Split(s[k + 1..]);
      assert Split(s) == [s[..k]] + rest && ([s[..k]] + rest)[1..] == rest;
      assert s == s[..k] + ";" + s[k + 1..];
    }
  }

  lemma {:induction false} SemiThere(s: string, word: bool, d: nat)
    ensures FirstSemi(s, word, d) < |s| ==> s[FirstSemi(s, word, d)] == ';'
    decreases |s|
  {
    hide Token;
    hide FirstSemi;
    if s != "" {
      ScanStep(s, word, d);
      var (kind, n) := Token(s, word);
      if kind == Quoted || kind == Url {
        SemiThere(s[n..], IsWord(s[n - 1]), d);
      } else if !(s[0] == ';' && d == 0) {
        SemiThere(s[1..], IsWord(s[0]), Deeper(s[0], d));
      }
    } else {
      NoSemi(word, d);
    }
  }

  lemma NoSemi(word: bool, d: nat)
    ensures FirstSemi("", word, d) == 0
  {
  }

  /** A closed piece, a semicolon and more text: the piece comes first. */
  lemma PieceComesFirst(p: string, y: string)
    requires Closed(p, false, 0)
    ensures Split(p + ";" + y) == [p] + Split(y)
  {
    hide FirstSemi;
    hide Closed;
    hide Token;
    var rest := ";" + y;
    var s := p + ";" + y;
    assert s == p + rest;
    SemiSeparates(rest);
    ClosedThen(p, rest, false, 0);
    SemiToken(rest, LastWord(p, false));
    ScanStep(rest, LastWord(p, false), 0);
    assert s[..|p|] == p && s[|p| + 1..] == y;
  }

  /** Parentheses hide semicolons, one level each; a closing one too many is passed over. */
  lemma ParenthesesCount(y: string, word: bool, d: nat)
    ensures FirstSemi("(" + y, word, d) == 1 + FirstSemi(y, false, d + 1)
    ensures FirstSemi(")" + y, word, d + 1) == 1 + FirstSemi(y, false, d)
    ensures FirstSemi(")" + y, word, 0) == 1 + FirstSemi(y, false, 0)
    ensures FirstSemi(";" + y, word, 0) == 0
    ensures FirstSemi(";" + y, word, d + 1) == 1 + FirstSemi(y, false, d + 1)
  {
    hide FirstSemi;
    PlainFront('(', y, word);
    PlainFront(')', y, word);
    PlainFront(';', y, word);
    ScanStep("(" + y, word, d);
    ScanStep(")" + y, word, d + 1);
    ScanStep(")" + y, word, 0);
    ScanStep(";" + y, word, 0);
    ScanStep(";" + y, word, d + 1);
  }

  lemma PlainFront(c: char, y: string, word: bool)
    requires c == '(' || c == ')' || c == ';'
    ensures var s := [c] + y; Token(s, word) == (Plain, 1) && s[1..] == y && s[0] == c && !IsWord(c)
  {
    hide QuoteAfterSpaces;
  }

  /** Trimming takes spaces from both ends, all of them and nothing else. */
  lemma TrimMeans(s: string) returns (a: nat, b: nat)
    ensures a <= b <= |s| && Trim(s) == s[a..b]
    ensures (forall i | 0 <= i < a :: IsSpace(s[i])) && forall i | b <= i < |s| :: IsSpace(s[i])
    ensures Trim(s) != "" ==> !IsSpace(Trim(s)[0]) && !IsSpace(Trim(s)[|Trim(s)| - 1])
  {
    hide IsSpace;
    a := SpaceRun(s);
    var t := TrimLeft(s);
    TrimRightMeans(t);
    b := a + |TrimRight(t)|;
    forall i | 0 <= i < a ensures IsSpace(s[i]) {
      SpaceRunIsSpaces(s, i);
    }
    forall i | b <= i < |s| ensures IsSpace(s[i]) {
      assert s[i] == t[i - a];
    }
    assert TrimRight(t) == t[..b - a] == s[a..b];
  }

  lemma {:induction false} TrimRightMeans(t: string)
    ensures TrimRight(t) == t[..|TrimRight(t)|] && forall i | |TrimRight(t)| <= i < |t| :: IsSpace(t[i])
    decreases |t|
  {
    hide IsSpace;
    if t != "" && IsSpace(t[|t| - 1]) {
      TrimRightMeans(t[..|t| - 1]);
    }
  }

  /** A declaration is marked if it ends in an exclamation mark, any spaces and the word
      important in any case. */
  ghost predicate EndsInMark(d: string) {
    var n := |d| - 9;
    && n > 0 && (forall i | 0 <= i < 9 :: d[n + i] == "important"[i] || d[n + i] == "IMPORTANT"[i])
    && exists i :: 0 <= i < n && d[i] == '!' && forall j | i < j < n :: IsSpace(d[j])
  }

  lemma ImportantMeans(s: string)
    requires |s| == 9
    ensures IsImportantWord(s) <==> forall i | 0 <= i < 9 :: s[i] == "important"[i] || s[i] == "IMPORTANT"[i]
  {
    assert forall i | 0 <= i < 9 :: "important"[i] as int == "IMPORTANT"[i] as int + 32;
    if IsImportantWord(s) {
      forall i | 0 <= i < 9 ensures s[i] == "important"[i] || s[i] == "IMPORTANT"[i] {
        assert FoldEq(s[i], "important"[i]);
      }
    }
    if forall i | 0 <= i < 9 :: s[i] == "important"[i] || s[i] == "IMPORTANT"[i] {
      assert forall i | 0 <= i < 9 :: FoldEq(s[i], "important"[i]);
    }
  }

  lemma HasMarkMeans(d: string)
    ensures HasMark(d) <==> EndsInMark(d)
  {
    hide IsImportantWord;
    hide TrimRight;
    hide BangBehind;
    if |d| >= 9 {
      var n := |d| - 9;
      var front, tail := d[..n], d[n..];
      ImportantMeans(tail);
      assert forall i | 0 <= i < 9 :: tail[i] == d[n + i];
      BangMeans(front);
      assert BangBehind(front) <==> exists i :: 0 <= i < n && d[i] == '!' && forall j | i < j < n :: IsSpace(d[j]) by {
        SameBang(d, n);
      }
    }
  }

  /** An exclamation mark with nothing but spaces behind it. */
  ghost predicate BangBehind(t: string) {
    exists i :: 0 <= i < |t| && t[i] == '!' && forall j | i < j < |t| :: IsSpace(t[j])
  }

  lemma SameBang(d: string, n: nat)
    requires n <= |d|
    ensures BangBehind(d[..n]) <==> exists i :: 0 <= i < n && d[i] == '!' && forall j | i < j < n :: IsSpace(d[j])
  {
    hide IsSpace;
    var t := d[..n];
    if i :| 0 <= i < n && d[i] == '!' && forall j | i < j < n :: IsSpace(d[j]) {
      assert t[i] == '!' && forall j | i < j < n :: t[j] == d[j];
    }
    if i :| 0 <= i < n && t[i] == '!' && forall j | i < j < n :: IsSpace(t[j]) {
      assert d[i] == '!' && forall j | i < j < n :: t[j] == d[j];
    }
  }

  lemma BangMeans(t: string)
    ensures BangBehind(t) <==> var r := TrimRight(t); r != "" && r[|r| - 1] == '!'
  {
    hide IsSpace;
    TrimRightMeans(t);
    BangIsNoSpace();
    var r := TrimRight(t);
    if r != "" {
      assert r[|r| - 1] == t[|r| - 1];
    }
  }

  /** A piece with something in it besides spaces. */
  ghost predicate NotBlank(p: string) { exists i :: 0 <= i < |p| && !IsSpace(p[i]) }

  lemma NotBlankMeans(p: string)
    ensures NotBlank(p) <==> Trim(p) != ""
  {
    hide IsSpace;
    hide Trim;
    var a, b := TrimMeans(p);
    if i :| 0 <= i < |p| && !IsSpace(p[i]) {
      assert a <= i < b;
    }
    if Trim(p) != "" {
      assert p[a] == Trim(p)[0];
    }
  }

  /** The trimmed piece, with the mark unless it has one. */
  ghost function Marked(p: string): string { if EndsInMark(Trim(p)) then Trim(p) else Trim(p) + " !important" }

  ghost function Filled(): string -> bool { (p: string) => NotBlank(p) }

  ghost function MarkedPiece(): string -> string { (p: string) => Marked(p) }

  lemma {:induction false} DeclarationsAre(ps: seq<string>)
    ensures Declarations(ps) == Mapped(Where(ps, Filled()), MarkedPiece())
    decreases |ps|
  {
    hide Trim;
    hide EndsInMark;
    hide NotBlank;
    if ps != [] {
      var p, rest := ps[0], ps[1..];
      DeclarationsAre(rest);
      NotBlankMeans(p);
      HasMarkMeans(Trim(p));
      assert ps == [p] + rest;
      WherePrepend(p, rest, Filled());
      var kept := Where(rest, Filled());
      assert Mapped([p] + kept, MarkedPiece()) == [Marked(p)] + Mapped(kept, MarkedPiece());
      assert [] + kept == kept;
    }
  }

  /** Marking a text keeps every piece of it that is not blank, in order, and nothing else:
      trimmed, and with the mark put behind it unless it is there already. */
  lemma EveryPieceIsMarked(css: string)
    ensures var pieces := Split(Strip(css, false));
      var wanted := Mapped(Where(pieces, Filled()), MarkedPiece());
      && Join(pieces) == Strip(css, false)
      && Importantify(css) == Join(wanted) && Split(Importantify(css)) == if wanted == [] then [""] else wanted
  {
    hide Split;
    hide Strip;
    hide Join;
    hide Clean;
    hide Where;
    hide Mapped;
    DeclarationsAre(Split(Strip(css, false)));
    SplitLosesNothing(Strip(css, false));
    MarkedText(css);
  }
}
