/** Marking declarations !important is idempotent, and marks them all. */
module ImportantLaws {
  import opened PseudoCss
  import opened PseudoCssLaws

  /** A piece that ends outside quotes, urls and parentheses (entered d deep) and
      holds no semicolon of its own: every piece but the last is closed. */
  predicate Closed(p: string, word: bool, d: nat)
    decreases |p|
  {
    if p == "" then d == 0
    else
      && Settled(p, word)
      && var (kind, n) := Token(p, word);
         if kind == Plain then !(p[0] == ';' && d == 0) && Closed(p[1..], IsWord(p[0]), Deeper(p[0], d))
         else Closed(p[n..], IsWord(p[n - 1]), d)
  }

  /** A piece without comments that runs to the end of the text: the last one. */
  predicate Open(p: string, word: bool, d: nat) { Clean(p, word) && FirstSemi(p, word, d) == |p| }

  function LastWord(p: string, word: bool): bool { if p == "" then word else IsWord(p[|p| - 1]) }

  lemma LastWordRest(p: string, n: nat, word: bool)
    requires 1 <= n <= |p|
    ensures LastWord(p[n..], IsWord(p[n - 1])) == LastWord(p, word)
  {
  }

  /** One step of the semicolon scan and of the comment check. */
  lemma ScanStep(s: string, word: bool, d: nat)
    requires s != ""
    ensures var (kind, n) := Token(s, word);
      && (Clean(s, word) <==> kind != Comment && Clean(s[n..], IsWord(s[n - 1])))
      && FirstSemi(s, word, d)
         == if kind == Quoted || kind == Url then n + FirstSemi(s[n..], IsWord(s[n - 1]), d)
            else if s[0] == ';' && d == 0 then 0
            else 1 + FirstSemi(s[1..], IsWord(s[0]), Deeper(s[0], d))
  {
    hide Token;
  }

  lemma PlainLength(s: string, word: bool)
    requires s != ""
    ensures Token(s, word).0 == Plain ==> Token(s, word).1 == 1
  {
    hide Tail;
    hide EndComment;
    hide UrlStart;
  }

  lemma NothingSeparates()
    ensures Separates("")
  {
  }

  /** A settled front token of p is read the same in p followed by a separator. */
  lemma TokenIn(p: string, y: string, word: bool)
    requires p != "" && Settled(p, word) && Separates(y)
    ensures Token(p + y, word) == Token(p, word)
  {
    hide Token;
    hide Settled;
    NothingSeparates();
    assert p + "" == p;
    TokenLocal(p, "", y, word);
  }

  /** Scanning a closed piece leaves the scanner where it began, behind the piece. */
  lemma {:induction false} ClosedThen(p: string, y: string, word: bool, d: nat)
    requires Closed(p, word, d) && Separates(y)
    ensures FirstSemi(p + y, word, d) == |p| + FirstSemi(y, LastWord(p, word), 0)
    ensures Clean(p + y, word) == Clean(y, LastWord(p, word))
    decreases |p|
  {
    hide Token;
    hide FirstSemi;
    hide Clean;
    hide Settled;
    hide Separates;
    if p == "" {
      assert p + y == y;
    } else {
      var (kind, n) := Token(p, word);
      TokenIn(p, y, word);
      PlainLength(p, word);
      ScanStep(p + y, word, d);
      SettledKind(p, word);
      assert (p + y)[n..] == p[n..] + y && (p + y)[n - 1] == p[n - 1] && (p + y)[0] == p[0];
      LastWordRest(p, n, word);
      if kind == Plain {
        ClosedThen(p[1..], y, IsWord(p[0]), Deeper(p[0], d));
      } else {
        ClosedThen(p[n..], y, IsWord(p[n - 1]), d);
      }
    }
  }

  lemma SettledKind(p: string, word: bool)
    requires p != "" && Settled(p, word)
    ensures Token(p, word).0 != Comment
  {
  }

  /** A closed piece at the end of the text is an open one. */
  lemma ClosedIsOpen(p: string, word: bool)
    requires Closed(p, word, 0)
    ensures Open(p, word, 0)
  {
    NothingSeparates();
    ClosedThen(p, "", word, 0);
    assert p + "" == p;
  }

  lemma ClosedNothing(word: bool)
    ensures Closed("", word, 0)
  {
  }

  /** The text up to the first semicolon is a closed piece. */
  lemma {:induction false} PieceClosed(s: string, word: bool, d: nat)
    requires Clean(s, word) && FirstSemi(s, word, d) < |s|
    ensures var k := FirstSemi(s, word, d);
      s[k] == ';' && Closed(s[..k], word, d) && Clean(s[k + 1..], false)
    decreases |s|
  {
    hide Token;
    hide FirstSemi;
    hide Clean;
    hide Settled;
    hide Closed;
    var k := FirstSemi(s, word, d);
    var (kind, n) := Token(s, word);
    ScanStep(s, word, d);
    PlainLength(s, word);
    if kind == Plain && s[0] == ';' && d == 0 {
      assert s[..0] == "" && Closed("", word, 0) by {
        ClosedNothing(word);
      }
    } else {
      var d' := if kind == Plain then Deeper(s[0], d) else d;
      var k' := FirstSemi(s[n..], IsWord(s[n - 1]), d');
      assert k == n + k';
      PieceClosed(s[n..], IsWord(s[n - 1]), d');
      assert s[n..][k'] == s[k] && s[n..][k' + 1..] == s[k + 1..];
      CutToken(s, word, k);
      assert s[..k][n..] == s[n..][..k'] && s[..k][n - 1] == s[n - 1] && s[..k][0] == s[0];
      ClosedStep(s[..k], word, d);
    }
  }

  lemma ClosedStep(p: string, word: bool, d: nat)
    requires p != "" && Settled(p, word)
    requires var (kind, n) := Token(p, word);
      if kind == Plain then !(p[0] == ';' && d == 0) && Closed(p[n..], IsWord(p[n - 1]), Deeper(p[0], d))
      else Closed(p[n..], IsWord(p[n - 1]), d)
    ensures Closed(p, word, d)
  {
    hide Token;
    hide Settled;
    PlainLength(p, word);
  }

  /** Cutting the text at a semicolon behind its front token keeps the token. */
  lemma CutToken(s: string, word: bool, k: nat)
    requires k < |s| && s[k] == ';' && s != "" && Token(s, word).0 != Comment && Token(s, word).1 <= k
    ensures Settled(s[..k], word) && Token(s[..k], word) == Token(s, word)
  {
    hide Token;
    hide Settled;
    SettledInside(s, word, Token(s, word).1);
    SemiSeparates(s[k..]);
    NothingSeparates();
    assert s[..k] + s[k..] == s && s[..k] + "" == s[..k];
    TokenLocal(s[..k], s[k..], "", word);
  }

  lemma SemiSeparates(y: string)
    requires y != "" && y[0] == ';'
    ensures Separates(y)
  {
    SpaceIsNoLetter(';');
  }

  /** A token that is not the last of its text found its closing delimiter. */
  lemma SettledInside(s: string, word: bool, n: nat)
    requires s != "" && Token(s, word).0 != Comment && Token(s, word).1 == n < |s|
    ensures Settled(s, word)
  {
    hide Tail;
    hide TailClosed;
    hide UrlStart;
    match Token(s, word).0
    case Quoted => if !TailClosed(s[1..], s[0]) { OpenTailIsWhole(s[1..], s[0]); }
    case Url => UrlStartLong(s); if !TailClosed(s[4..], ')') { OpenTailIsWhole(s[4..], ')'); }
    case Plain =>
  }

  /* Trimming a piece. */

  lemma SpaceToken(p: string, word: bool)
    requires p != "" && IsSpace(p[0])
    ensures Token(p, word) == (Plain, 1) && p[0] != ';' && !IsWord(p[0]) && forall d :: Deeper(p[0], d) == d
  {
    hide Tail;
    hide QuoteAfterSpaces;
    SpaceIsNoLetter(p[0]);
  }

  lemma {:induction false} ClosedTrimLeft(p: string, word: bool, d: nat)
    requires Closed(p, word, d) && !word
    ensures Closed(TrimLeft(p), word, d)
    decreases |p|
  {
    hide Token;
    hide IsSpace;
    if p == "" || !IsSpace(p[0]) {
      assert TrimLeft(p) == p;
    } else {
      SpaceToken(p, word);
      assert TrimLeft(p) == TrimLeft(p[1..]);
      ClosedTrimLeft(p[1..], IsWord(p[0]), d);
    }
  }

  lemma EndSpaceSeparates(c: char)
    requires IsSpace(c)
    ensures Separates([c])
  {
    assert [c][1..] == "";
  }

  lemma {:induction false} ClosedDropSpace(p: string, c: char, word: bool, d: nat)
    requires Closed(p + [c], word, d) && IsSpace(c)
    ensures Closed(p, word, d)
    decreases |p|
  {
    hide Token;
    hide Settled;
    hide IsSpace;
    hide Closed;
    var s := p + [c];
    ClosedSplit(s, word, d);
    if p == "" {
      SpaceToken(s, word);
      assert s[1..] == "";
      ClosedEmpty(IsWord(s[0]), d);
      ClosedNothing(word);
    } else {
      var (kind, n) := Token(s, word);
      SettledEnd(p, c, word);
      EndSpaceSeparates(c);
      NothingSeparates();
      assert p + "" == p;
      TokenLocal(p, [c], "", word);
      assert s[n..] == p[n..] + [c] && s[n - 1] == p[n - 1] && s[0] == p[0];
      ClosedDropSpace(p[n..], c, IsWord(p[n - 1]), if kind == Plain then Deeper(p[0], d) else d);
      ClosedStep(p, word, d);
    }
  }

  lemma ClosedEmpty(word: bool, d: nat)
    requires Closed("", word, d)
    ensures d == 0
  {
  }

  lemma ClosedSplit(p: string, word: bool, d: nat)
    requires p != "" && Closed(p, word, d)
    ensures Settled(p, word)
    ensures var (kind, n) := Token(p, word);
      if kind == Plain then !(p[0] == ';' && d == 0) && Closed(p[n..], IsWord(p[n - 1]), Deeper(p[0], d))
      else Closed(p[n..], IsWord(p[n - 1]), d)
  {
    hide Token;
    hide Settled;
    PlainLength(p, word);
  }

  lemma {:induction false} ClosedTrimRight(p: string, word: bool, d: nat)
    requires Closed(p, word, d)
    ensures Closed(TrimRight(p), word, d)
    decreases |p|
  {
    hide Closed;
    hide IsSpace;
    if p != "" && IsSpace(p[|p| - 1]) {
      assert p == p[..|p| - 1] + [p[|p| - 1]];
      ClosedDropSpace(p[..|p| - 1], p[|p| - 1], word, d);
      ClosedTrimRight(p[..|p| - 1], word, d);
    }
  }

  /* The mark itself is plain text. */

  /** No quote, comment, url, parenthesis or semicolon can begin in it. */
  predicate PlainText(q: string) {
    forall i | 0 <= i < |q| :: !IsQuote(q[i]) && q[i] !in {'/', '\\', '(', ')', ';', 'u', 'U'}
  }

  lemma {:induction false} PlainClosed(q: string, word: bool)
    requires PlainText(q)
    ensures Closed(q, word, 0)
    decreases |q|
  {
    hide Tail;
    hide QuoteAfterSpaces;
    if q != "" {
      PlainClosed(q[1..], IsWord(q[0]));
    }
  }

  lemma MarkFacts()
    ensures PlainText(MARK) && Separates(MARK) && |MARK| == 11 && MARK[10] == 't'
  {
    assert MARK[0] == ' ' && MARK[1] == '!' && MARK[1..][0] == '!';
  }

  /** Appending the mark to a closed piece keeps it closed. */
  lemma {:induction false} ClosedAppend(p: string, q: string, word: bool, d: nat)
    requires Closed(p, word, d) && PlainText(q) && Separates(q)
    ensures Closed(p + q, word, d)
    decreases |p|
  {
    hide Token;
    hide Settled;
    hide Separates;
    hide PlainText;
    hide Closed;
    if p == "" {
      ClosedEmpty(word, d);
      PlainClosed(q, word);
      assert p + q == q;
    } else {
      var (kind, n) := Token(p, word);
      ClosedSplit(p, word, d);
      NothingSeparates();
      assert p + "" == p;
      TokenLocal(p, "", q, word);
      assert (p + q)[n..] == p[n..] + q && (p + q)[n - 1] == p[n - 1] && (p + q)[0] == p[0];
      ClosedAppend(p[n..], q, IsWord(p[n - 1]), if kind == Plain then Deeper(p[0], d) else d);
      ClosedStep(p + q, word, d);
    }
  }

  /* The same for the last piece, which may end inside a quote, url or parenthesis. */

  lemma OpenSplit(p: string, word: bool, d: nat)
    requires p != ""
    ensures var (kind, n) := Token(p, word);
      Open(p, word, d) ==
        (kind != Comment &&
         (if kind == Plain then !(p[0] == ';' && d == 0) && Open(p[n..], IsWord(p[n - 1]), Deeper(p[0], d))
          else Open(p[n..], IsWord(p[n - 1]), d)))
  {
    hide Token;
    hide FirstSemi;
    hide Clean;
    ScanStep(p, word, d);
    PlainLength(p, word);
  }

  lemma OpenNothing(word: bool, d: nat)
    ensures Open("", word, d)
  {
  }

  lemma {:induction false} OpenTrimLeft(p: string, word: bool, d: nat)
    requires Open(p, word, d) && !word
    ensures Open(TrimLeft(p), word, d)
    decreases |p|
  {
    hide Token;
    hide IsSpace;
    hide Open;
    if p == "" || !IsSpace(p[0]) {
      assert TrimLeft(p) == p;
    } else {
      SpaceToken(p, word);
      OpenSplit(p, word, d);
      assert TrimLeft(p) == TrimLeft(p[1..]);
      OpenTrimLeft(p[1..], IsWord(p[0]), d);
    }
  }

  /** Changing only what follows p behind an unfinished token keeps it unfinished. */
  lemma UnsettledDropSpace(p: string, c: char, word: bool)
    requires p != "" && IsSpace(c) && !Settled(p + [c], word) && Token(p + [c], word).0 != Comment
    ensures Token(p, word) == (Token(p + [c], word).0, |p|)
  {
    hide Tail;
    hide TailClosed;
    hide UrlStart;
    hide IsSpace;
    var s := p + [c];
    SpaceIsNoLetter(c);
    EndSpaceSeparates(c);
    UrlStartLocal(p, [c]);
    assert s[0] == p[0];
    if Token(s, word).0 == Quoted {
      assert s[1..] == p[1..] + [c];
      StillOpen(p[1..], [c], p[0]);
    } else {
      UrlStartLong(p);
      UrlStartHeadU(p);
      SpaceIsNoLetter(p[0]);
      assert s[4..] == p[4..] + [c];
      StillOpen(p[4..], [c], ')');
    }
  }

  lemma StillOpen(t: string, y: string, close: char)
    requires !TailClosed(t + y, close)
    ensures !TailClosed(t, close) && Tail(t, close) == |t|
  {
    if TailClosed(t, close) {
      assert (t + y)[..Tail(t, close)] == t[..Tail(t, close)];
      TailAgree(t, t + y, close);
    }
    OpenTailIsWhole(t, close);
  }

  lemma {:induction false} OpenDropSpace(p: string, c: char, word: bool, d: nat)
    requires Open(p + [c], word, d) && IsSpace(c)
    ensures Open(p, word, d)
    decreases |p|
  {
    hide Token;
    hide Settled;
    hide IsSpace;
    hide Open;
    if p == "" {
      OpenNothing(word, d);
    } else {
      var s := p + [c];
      var (kind, n) := Token(s, word);
      OpenSplit(s, word, d);
      OpenSplit(p, word, d);
      if Settled(s, word) {
        SettledEnd(p, c, word);
        EndSpaceSeparates(c);
        NothingSeparates();
        assert p + "" == p;
        TokenLocal(p, [c], "", word);
        assert s[n..] == p[n..] + [c] && s[n - 1] == p[n - 1] && s[0] == p[0];
        OpenDropSpace(p[n..], c, IsWord(p[n - 1]), if kind == Plain then Deeper(p[0], d) else d);
      } else {
        UnsettledKind(s, word);
        UnsettledDropSpace(p, c, word);
        OpenNothing(IsWord(p[|p| - 1]), d);
        assert p[|p|..] == "";
      }
    }
  }

  lemma UnsettledKind(s: string, word: bool)
    requires s != "" && !Settled(s, word)
    ensures Token(s, word).0 != Plain
  {
  }

  lemma {:induction false} OpenTrimRight(p: string, word: bool, d: nat)
    requires Open(p, word, d)
    ensures Open(TrimRight(p), word, d)
    decreases |p|
  {
    hide Open;
    hide IsSpace;
    if p != "" && IsSpace(p[|p| - 1]) {
      assert p == p[..|p| - 1] + [p[|p| - 1]];
      OpenDropSpace(p[..|p| - 1], p[|p| - 1], word, d);
      OpenTrimRight(p[..|p| - 1], word, d);
    }
  }

  lemma UnsettledAppend(p: string, q: string, word: bool)
    requires p != "" && PlainText(q) && Separates(q) && !Settled(p, word) && Token(p, word).0 != Comment
    ensures Token(p + q, word) == (Token(p, word).0, |p + q|)
  {
    hide Tail;
    hide TailClosed;
    hide UrlStart;
    hide Separates;
    var s := p + q;
    UrlStartLocal(p, q);
    assert s[0] == p[0];
    if Token(p, word).0 == Quoted {
      assert s[1..] == p[1..] + q;
      OpenTailStaysOpen(p[1..], q, p[0]);
      OpenTailIsWhole(s[1..], p[0]);
    } else {
      UrlStartLong(p);
      UrlStartHeadU(p);
      assert s[4..] == p[4..] + q;
      OpenTailStaysOpen(p[4..], q, ')');
      OpenTailIsWhole(s[4..], ')');
    }
  }

  lemma {:induction false} OpenAppend(p: string, q: string, word: bool, d: nat)
    requires Open(p, word, d) && PlainText(q) && Separates(q)
    ensures Open(p + q, word, d)
    decreases |p|
  {
    hide Token;
    hide Settled;
    hide Separates;
    hide PlainText;
    hide Open;
    var s := p + q;
    if p == "" {
      PlainOpen(q, word, d);
      assert s == q;
    } else {
      var (kind, n) := Token(p, word);
      OpenSplit(p, word, d);
      OpenSplit(s, word, d);
      if Settled(p, word) {
        TokenIn(p, q, word);
        assert s[n..] == p[n..] + q && s[n - 1] == p[n - 1] && s[0] == p[0];
        OpenAppend(p[n..], q, IsWord(p[n - 1]), if kind == Plain then Deeper(p[0], d) else d);
      } else {
        UnsettledKind(p, word);
        UnsettledAppend(p, q, word);
        OpenNothing(IsWord(s[|s| - 1]), d);
        assert s[|s|..] == "";
      }
    }
  }

  lemma {:induction false} PlainOpen(q: string, word: bool, d: nat)
    requires PlainText(q)
    ensures Open(q, word, d)
    decreases |q|
  {
    hide Open;
    if q == "" {
      OpenNothing(word, d);
    } else {
      PlainToken(q, word);
      OpenSplit(q, word, d);
      PlainOpen(q[1..], IsWord(q[0]), d);
    }
  }

  lemma PlainToken(q: string, word: bool)
    requires PlainText(q) && q != ""
    ensures Token(q, word) == (Plain, 1) && q[0] != ';' && forall d :: Deeper(q[0], d) == d
  {
    hide Tail;
    hide QuoteAfterSpaces;
  }

  /* Declarations. */

  /** Trimmed, not empty and marked. */
  predicate Neat(d: string) {
    d != "" && !IsSpace(d[0]) && !IsSpace(d[|d| - 1]) && HasMark(d)
  }

  lemma TrimEnds(p: string)
    requires Trim(p) != ""
    ensures !IsSpace(Trim(p)[0]) && !IsSpace(Trim(p)[|Trim(p)| - 1])
  {
    assert Trim(p)[0] == TrimLeft(p)[0];
  }

  lemma NeatIsTrimmed(d: string)
    requires d != "" && !IsSpace(d[0]) && !IsSpace(d[|d| - 1])
    ensures Trim(d) == d
  {
    assert SpaceRun(d) == 0;
  }

  lemma MarkedHasMark(d: string)
    ensures HasMark(d + MARK)
  {
    hide IsSpace;
    var s := d + MARK;
    assert s[|s| - 9..] == MARK[2..];
    assert s[..|s| - 9] == d + MARK[..2];
    assert !IsSpace('!') by {
      BangIsNoSpace();
    }
  }

  lemma BangIsNoSpace()
    ensures !IsSpace('!') && !IsSpace('t')
  {
  }

  lemma FixedIsNeat(p: string)
    requires Trim(p) != ""
    ensures Neat(Fixed(Trim(p)))
  {
    hide IsSpace;
    hide HasMark;
    hide Trim;
    TrimEnds(p);
    MarkedHasMark(Trim(p));
    MarkFacts();
    BangIsNoSpace();
  }

  /** Pieces, and then declarations, as splitting a text leaves them: the last may
      be open, the others are closed. */
  ghost predicate GoodPieces(ps: seq<string>) {
    ps != [] ==> (if |ps| == 1 then Open(ps[0], false, 0) else Closed(ps[0], false, 0)) && GoodPieces(ps[1..])
  }

  ghost predicate AllNeat(ds: seq<string>) { forall i | 0 <= i < |ds| :: Neat(ds[i]) }

  lemma {:induction false} SplitIsGood(s: string)
    requires Clean(s, false)
    ensures GoodPieces(Split(s))
    decreases |s|
  {
    hide Open;
    hide Closed;
    hide FirstSemi;
    hide Clean;
    var k := FirstSemi(s, false, 0);
    if k == |s| {
      assert Open(s, false, 0) by {
        OpenFrom(s);
      }
    } else {
      PieceClosed(s, false, 0);
      SplitIsGood(s[k + 1..]);
      assert Split(s)[1..] == Split(s[k + 1..]);
    }
  }

  lemma OpenFrom(s: string)
    requires Clean(s, false) && FirstSemi(s, false, 0) == |s|
    ensures Open(s, false, 0)
  {
  }

  lemma FixedStaysClosed(p: string)
    requires Closed(p, false, 0)
    ensures Closed(Fixed(Trim(p)), false, 0)
  {
    hide Closed;
    hide HasMark;
    ClosedTrimLeft(p, false, 0);
    ClosedTrimRight(TrimLeft(p), false, 0);
    MarkFacts();
    ClosedAppend(Trim(p), MARK, false, 0);
  }

  lemma FixedStaysOpen(p: string)
    requires Open(p, false, 0)
    ensures Open(Fixed(Trim(p)), false, 0)
  {
    hide Open;
    hide HasMark;
    OpenTrimLeft(p, false, 0);
    OpenTrimRight(TrimLeft(p), false, 0);
    MarkFacts();
    OpenAppend(Trim(p), MARK, false, 0);
  }

  lemma {:induction false} DeclarationsAreGood(ps: seq<string>)
    requires GoodPieces(ps)
    ensures GoodPieces(Declarations(ps)) && AllNeat(Declarations(ps))
    decreases |ps|
  {
    hide Open;
    hide Closed;
    hide Neat;
    hide Trim;
    hide Fixed;
    if ps != [] {
      var rest := Declarations(ps[1..]);
      DeclarationsAreGood(ps[1..]);
      if Trim(ps[0]) != "" {
        var d := Fixed(Trim(ps[0]));
        FixedIsNeat(ps[0]);
        if |ps| == 1 {
          FixedStaysOpen(ps[0]);
        } else {
          FixedStaysClosed(ps[0]);
          ClosedIsOpen(d, false);
        }
        assert ([d] + rest)[1..] == rest;
      } else {
        assert [] + rest == rest;
      }
    }
  }

  /** Joined declarations have no comments and split back into themselves. */
  lemma {:induction false} JoinSplits(ds: seq<string>)
    requires GoodPieces(ds) && ds != []
    ensures Clean(Join(ds), false) && Split(Join(ds)) == ds
    decreases |ds|
  {
    hide Closed;
    hide FirstSemi;
    hide Clean;
    hide Token;
    if |ds| > 1 {
      hide Open;
      var d, rest := ds[0], Join(ds[1..]);
      JoinSplits(ds[1..]);
      var y := ";" + rest;
      SemiSeparates(y);
      ClosedThen(d, y, false, 0);
      assert Join(ds) == d + ";" + rest == d + y;
      SemiToken(y, LastWord(d, false));
      ScanStep(y, LastWord(d, false), 0);
      assert y[1..] == rest && (d + y)[|d| + 1..] == rest && (d + y)[..|d|] == d;
      assert ds == [d] + ds[1..];
    }
  }

  lemma SemiToken(y: string, word: bool)
    requires y != "" && y[0] == ';'
    ensures Token(y, word) == (Plain, 1) && !IsWord(y[0])
  {
    hide Tail;
    hide QuoteAfterSpaces;
  }

  lemma {:induction false} NeatDeclarationsAreKept(ds: seq<string>)
    requires AllNeat(ds)
    ensures Declarations(ds) == ds
    decreases |ds|
  {
    hide Neat;
    if ds != [] {
      NeatIsKept(ds[0]);
      NeatDeclarationsAreKept(ds[1..]);
      assert ds == [ds[0]] + ds[1..];
    }
  }

  lemma NeatIsKept(d: string)
    requires Neat(d)
    ensures Trim(d) == d && Fixed(d) == d && d != ""
  {
    hide IsSpace;
    NeatIsTrimmed(d);
  }

  /** What marking leaves: comment-free, and splitting into marked declarations. */
  lemma MarkedText(css: string)
    ensures var ds := Declarations(Split(Strip(css, false)));
      && Importantify(css) == Join(ds) && AllNeat(ds)
      && Clean(Importantify(css), false)
      && Split(Importantify(css)) == if ds == [] then [""] else ds
  {
    hide Strip;
    hide Clean;
    hide AllNeat;
    var ds := Declarations(Split(Strip(css, false)));
    StripIsClean(css, false);
    SplitIsGood(Strip(css, false));
    DeclarationsAreGood(Split(Strip(css, false)));
    if ds == [] {
      CleanNothing(false);
    } else {
      JoinSplits(ds);
    }
  }

  /** Every declaration of the result ends in the mark. */
  lemma EveryDeclarationMarked(css: string)
    requires Importantify(css) != ""
    ensures forall i | 0 <= i < |Split(Importantify(css))| :: HasMark(Split(Importantify(css))[i])
  {
    hide Split;
    hide Strip;
    hide Importantify;
    hide Declarations;
    hide Clean;
    hide HasMark;
    MarkedText(css);
  }

  /** Marking twice is marking once. */
  lemma ImportantifyIdempotent(css: string)
    ensures Importantify(Importantify(css)) == Importantify(css)
  {
    hide Strip;
    hide Split;
    hide Clean;
    MarkedText(css);
    CleanIsKept(Importantify(css), false);
    var ds := Declarations(Split(Strip(css, false)));
    if ds == [] {
      assert Trim("") == "";
      assert Declarations([""]) == [];
    } else {
      NeatDeclarationsAreKept(ds);
    }
  }
}
