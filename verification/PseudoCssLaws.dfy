/** Removing comments and marking declarations are idempotent on every text: what
    they produce reads, token by token, the way the text they came from did. */
module PseudoCssLaws {
  import opened PseudoCss

  /* Delimited tails. */

  /** The closing delimiter is really there. */
  predicate TailClosed(t: string, close: char) {
    if t == "" then false
    else if t[0] == '\\' then |t| > 1 && TailClosed(t[2..], close)
    else t[0] == close || TailClosed(t[1..], close)
  }

  /** A closed tail depends only on its own characters. */
  lemma {:induction false} TailAgree(t: string, u: string, close: char)
    requires TailClosed(t, close)
    requires Tail(t, close) <= |u| && u[..Tail(t, close)] == t[..Tail(t, close)]
    ensures TailClosed(u, close) && Tail(u, close) == Tail(t, close)
    decreases |t|
  {
    var n := Tail(t, close);
    assert u[0] == u[..n][0] && t[0] == t[..n][0];
    if t[0] == '\\' {
      assert u[2..][..n - 2] == u[..n][2..] && t[2..][..n - 2] == t[..n][2..];
      TailAgree(t[2..], u[2..], close);
    } else if t[0] != close {
      assert u[1..][..n - 1] == u[..n][1..] && t[1..][..n - 1] == t[..n][1..];
      TailAgree(t[1..], u[1..], close);
    }
  }

  /** A closed tail ends in the closing delimiter. */
  lemma {:induction false} ClosedEndsInDelimiter(t: string, close: char)
    requires TailClosed(t, close) && close != '\\'
    ensures Tail(t, close) > 0 && t[Tail(t, close) - 1] == close
    decreases |t|
  {
    if t[0] == '\\' {
      ClosedEndsInDelimiter(t[2..], close);
    } else if t[0] != close {
      ClosedEndsInDelimiter(t[1..], close);
    }
  }

  lemma {:induction false} OpenTailIsWhole(t: string, close: char)
    requires !TailClosed(t, close)
    ensures Tail(t, close) == |t|
    decreases |t|
  {
    if t != "" {
      if t[0] == '\\' {
        if |t| > 1 {
          OpenTailIsWhole(t[2..], close);
        }
      } else {
        OpenTailIsWhole(t[1..], close);
      }
    }
  }

  /** An open tail stays open when text without the delimiter is appended. */
  lemma {:induction false} OpenTailStaysOpen(t: string, q: string, close: char)
    requires !TailClosed(t, close)
    requires forall i | 0 <= i < |q| :: q[i] != close && q[i] != '\\'
    ensures !TailClosed(t + q, close)
    decreases |t| + |q|
  {
    if t == "" {
      assert t + q == q;
      if q != "" {
        OpenTailStaysOpen("", q[1..], close);
        assert "" + q[1..] == q[1..];
      }
    } else if t[0] == '\\' {
      if |t| > 1 {
        assert (t + q)[2..] == t[2..] + q;
        OpenTailStaysOpen(t[2..], q, close);
      } else if q != "" {
        assert (t + q)[2..] == q[1..] && "" + q[1..] == q[1..];
        OpenTailStaysOpen("", q[1..], close);
      }
    } else {
      assert (t + q)[1..] == t[1..] + q;
      OpenTailStaysOpen(t[1..], q, close);
    }
  }

  /* Spaces before a quote. */

  lemma {:induction false} QuoteAgree(t: string, u: string, n: nat)
    requires n <= |t| && n <= |u| && t[..n] == u[..n] && SpaceRun(t) < n
    ensures SpaceRun(u) == SpaceRun(t) && QuoteAfterSpaces(u) == QuoteAfterSpaces(t)
    decreases |t|
  {
    assert t[0] == t[..n][0] && u[0] == u[..n][0];
    if IsSpace(t[0]) {
      assert t[1..][..n - 1] == t[..n][1..] && u[1..][..n - 1] == u[..n][1..];
      QuoteAgree(t[1..], u[1..], n - 1);
    }
  }

  lemma {:induction false} SpaceRunOfAppend(t: string, q: string)
    requires SpaceRun(t) == |t|
    ensures SpaceRun(t + q) == |t| + SpaceRun(q)
    decreases |t|
  {
    hide IsSpace;
    if t == "" {
      assert t + q == q;
    } else {
      assert (t + q)[1..] == t[1..] + q;
      SpaceRunOfAppend(t[1..], q);
    }
  }

  lemma SpaceRunAppend(t: string, q: string)
    requires SpaceRun(t) == |t|
    ensures QuoteAfterSpaces(t + q) == QuoteAfterSpaces(q)
  {
    hide SpaceRun;
    hide IsSpace;
    SpaceRunOfAppend(t, q);
    assert SpaceRun(q) < |q| ==> (t + q)[|t| + SpaceRun(q)] == q[SpaceRun(q)];
  }

  lemma {:induction false} SpaceRunIsSpaces(t: string, i: nat)
    requires i < SpaceRun(t)
    ensures IsSpace(t[i])
    decreases |t|
  {
    if i > 0 {
      SpaceRunIsSpaces(t[1..], i - 1);
    }
  }

  /* Tokens are local. */

  /** Text that may follow a piece without changing how the piece is read. */
  predicate Separates(y: string) {
    (y == "" || y[0] == ';' || y[0] == '/' || IsSpace(y[0])) && !QuoteAfterSpaces(y)
  }

  /** The front token is complete: it does not run to the end for want of its
      closing delimiter, and it is not a comment. */
  predicate Settled(p: string, word: bool)
    requires p != ""
  {
    match Token(p, word).0
    case Quoted => TailClosed(p[1..], p[0])
    case Url => TailClosed(p[4..], ')')
    case Comment => false
    case Plain => true
  }

  lemma UrlHeadLocal(x: string, y: string)
    requires x != "" && Separates(y)
    ensures UrlHead(x + y) == UrlHead(x)
  {
    hide QuoteAfterSpaces;
    hide IsSpace;
    if |x| < 4 && y != "" {
      SpaceIsNoLetter(y[0]);
      assert (x + y)[|x|] == y[0];
    }
  }

  lemma SpaceIsNoLetter(c: char)
    ensures c == ';' || c == '/' || IsSpace(c) ==> c !in {'u', 'U', 'r', 'R', 'l', 'L', '(', ')', '*', '\\'} && !IsQuote(c) && !IsWord(c)
    ensures c == ';' || IsSpace(c) ==> c != '/'
  {
  }

  /** Whether an unquoted url starts does not depend on what follows the piece. */
  lemma UrlStartLocal(x: string, y: string)
    requires x != "" && Separates(y)
    ensures UrlStart(x + y) == UrlStart(x)
  {
    hide IsSpace;
    hide UrlHead;
    hide SpaceRun;
    UrlHeadLocal(x, y);
    if UrlHead(x) {
      UrlHeadLong(x);
      var t := x[4..];
      assert (x + y)[4..] == t + y;
      if SpaceRun(t) < |t| {
        assert t[..|t|] == (t + y)[..|t|];
        QuoteAgree(t, t + y, |t|);
      } else {
        SpaceRunAppend(t, y);
      }
    }
  }

  lemma UrlHeadLong(x: string)
    ensures UrlHead(x) ==> |x| >= 4
  {
  }

  lemma TailLocal(x: string, y: string, z: string, from: nat, close: char)
    requires from <= |x| && TailClosed((x + y)[from..], close) && from + Tail((x + y)[from..], close) <= |x|
    ensures TailClosed((x + z)[from..], close) && Tail((x + z)[from..], close) == Tail((x + y)[from..], close)
  {
    hide Tail;
    hide TailClosed;
    var n := Tail((x + y)[from..], close);
    assert (x + y)[from..][..n] == x[from..from + n] == (x + z)[from..][..n];
    TailAgree((x + y)[from..], (x + z)[from..], close);
  }

  /** A settled token that lies inside x is the same whatever separator follows x. */
  lemma TokenLocal(x: string, y: string, z: string, word: bool)
    requires x != "" && Separates(y) && Separates(z)
    requires Settled(x + y, word) && Token(x + y, word).1 <= |x|
    ensures Token(x + z, word) == Token(x + y, word) && Settled(x + z, word)
  {
    hide Tail;
    hide TailClosed;
    hide UrlStart;
    hide QuoteAfterSpaces;
    hide IsSpace;
    UrlStartLocal(x, y);
    UrlStartLocal(x, z);
    assert (x + y)[0] == x[0] && (x + z)[0] == x[0];
    match Token(x + y, word).0
    case Quoted => TailLocal(x, y, z, 1, x[0]);
    case Url => UrlStartLong(x); TailLocal(x, y, z, 4, ')');
    case Plain =>
      if |x| > 1 {
        assert (x + y)[1] == x[1] == (x + z)[1];
      } else if z != "" {
        SpaceIsNoLetter(z[0]);
        assert (x + z)[1] == z[0];
      }
  }

  lemma UrlStartLong(x: string)
    ensures UrlStart(x) ==> |x| >= 4
  {
  }

  /** A settled token ends in a character no separator starts with. */
  lemma SettledEnd(p: string, c: char, word: bool)
    requires p != "" && IsSpace(c) && Settled(p + [c], word)
    ensures Token(p + [c], word).1 <= |p|
  {
    hide Tail;
    hide TailClosed;
    hide UrlStart;
    SpaceIsNoLetter(c);
    var u := p + [c];
    match Token(u, word).0
    case Quoted => ClosedEndsInDelimiter(u[1..], u[0]);
    case Url =>
      UrlStartLong(u);
      ClosedEndsInDelimiter(u[4..], ')');
      var n := 4 + Tail(u[4..], ')');
      assert u[n - 1] == u[4..][n - 5] == ')';
      assert u[|p|] == c;
    case Plain =>
  }

  /* Removing comments. */

  /** No token of the text is a comment. */
  predicate Clean(s: string, word: bool)
    decreases |s|
  {
    s != "" ==>
      var (kind, n) := Token(s, word);
      kind != Comment && Clean(s[n..], IsWord(s[n - 1]))
  }

  lemma CleanStep(s: string, word: bool)
    requires s != "" && Clean(s, word)
    ensures var (kind, n) := Token(s, word); kind != Comment && Clean(s[n..], IsWord(s[n - 1]))
  {
    hide Token;
  }

  lemma {:induction false} CleanIsKept(s: string, word: bool)
    requires Clean(s, word)
    ensures Strip(s, word) == s
    decreases |s|
  {
    hide Token;
    hide Strip;
    hide Clean;
    if s == "" {
      StripHead(s, word);
    } else {
      var n := Token(s, word).1;
      CleanStep(s, word);
      StripStep(s, word);
      CleanIsKept(s[n..], IsWord(s[n - 1]));
      assert s == s[..n] + s[n..];
    }
  }

  /** The first character of stripped text is the first of the text, or the space
      that stands for a comment. */
  lemma StripHead(s: string, word: bool)
    ensures s == "" ==> Strip(s, word) == ""
    ensures s != "" ==> Strip(s, word) != ""
    ensures s != "" && Token(s, word).0 == Comment ==> Strip(s, word)[0] == ' ' && s[0] == '/'
    ensures s != "" && Token(s, word).0 != Comment ==> Strip(s, word)[0] == s[0]
    ensures s != "" && Token(s, word).0 == Plain ==> Strip(s, word) == [s[0]] + Strip(s[1..], IsWord(s[0]))
  {
    hide Tail;
    hide EndComment;
    hide UrlStart;
    if s != "" {
      StripStep(s, word);
    }
  }

  /** A letter of "url(" in stripped text was copied from the text. */
  lemma LetterCopied(s: string, word: bool)
    requires Strip(s, word) != "" && Strip(s, word)[0] in {'r', 'R', 'l', 'L', '('}
    ensures s != "" && s[0] == Strip(s, word)[0] && Strip(s, word)[1..] == Strip(s[1..], IsWord(s[0]))
  {
    hide Strip;
    hide Tail;
    hide UrlStart;
    StripHead(s, word);
    UrlStartHeadU(s);
  }

  lemma UrlStartHeadU(s: string)
    ensures UrlStart(s) ==> s != "" && s[0] in {'u', 'U'}
  {
    hide QuoteAfterSpaces;
  }

  lemma QuoteAfterSpacesStep(s: string)
    ensures QuoteAfterSpaces(s) <==> s != "" && (IsQuote(s[0]) || (IsSpace(s[0]) && QuoteAfterSpaces(s[1..])))
  {
    hide IsSpace;
    if s != "" && IsSpace(s[0]) {
      SpaceIsNoLetter(s[0]);
    }
    if s != "" && IsQuote(s[0]) {
      QuoteIsNoSpace(s[0]);
    }
  }

  lemma QuoteIsNoSpace(c: char)
    requires IsQuote(c)
    ensures !IsSpace(c)
  {
  }

  /** Spaces and a quote behind them survive. */
  lemma {:induction false} QuoteSurvives(s: string, word: bool)
    requires QuoteAfterSpaces(s)
    ensures QuoteAfterSpaces(Strip(s, word))
    decreases |s|
  {
    hide Tail;
    hide Strip;
    hide QuoteAfterSpaces;
    hide SpaceRun;
    hide UrlStart;
    hide IsSpace;
    StripHead(s, word);
    QuoteAfterSpacesStep(s);
    QuoteAfterSpacesStep(Strip(s, word));
    if !IsQuote(s[0]) {
      UrlStartHeadU(s);
      SpaceIsNoLetter(s[0]);
      QuoteSurvives(s[1..], IsWord(s[0]));
      assert Strip(s, word)[1..] == Strip(s[1..], IsWord(s[0]));
    }
  }

  /** Taking comments out of what follows a u cannot make a url( start there. */
  lemma NoNewUrl(c: char, rest: string)
    requires UrlStart([c] + Strip(rest, IsWord(c)))
    ensures UrlStart([c] + rest)
  {
    hide Strip;
    hide Token;
    hide QuoteAfterSpaces;
    var r := Strip(rest, IsWord(c));
    var out, src := [c] + r, [c] + rest;
    assert out[1] == r[0] && out[2] == r[1] && out[3] == r[2] && out[4..] == r[3..];
    LetterCopied(rest, IsWord(c));
    LetterCopied(rest[1..], IsWord(rest[0]));
    LetterCopied(rest[2..], IsWord(rest[1]));
    assert r[1..][1..][1..] == r[3..] && rest[1..][1..][1..] == rest[3..] && src[4..] == rest[3..];
    assert r[3..] == Strip(rest[3..], IsWord(rest[2]));
    if QuoteAfterSpaces(rest[3..]) {
      QuoteSurvives(rest[3..], IsWord(rest[2]));
    }
  }

  /** What removing comments leaves has no comments left. */
  lemma {:induction false} StripIsClean(s: string, word: bool)
    ensures Clean(Strip(s, word), word)
    decreases |s|
  {
    hide Strip;
    hide Clean;
    if s == "" {
      StripHead(s, word);
      CleanNothing(word);
    } else {
      var (kind, n) := Token(s, word);
      var rest, next := s[n..], IsWord(s[n - 1]);
      var r := Strip(rest, next);
      StripIsClean(rest, next);
      StripStep(s, word);
      if kind == Comment {
        CommentEnd(s, word);
        StripHead(rest, next);
        SpaceThenClean(r, word);
      } else {
        SameTokenAfterStrip(s, word);
        TokenThenClean(s[..n], r, word);
      }
    }
  }

  lemma CleanNothing(word: bool)
    ensures Clean("", word)
  {
  }

  /** Behind a comment there is nothing, or a slash. */
  lemma CommentEnd(s: string, word: bool)
    requires s != "" && Token(s, word).0 == Comment
    ensures var n := Token(s, word).1; s[n..] == "" || !IsWord(s[n - 1])
  {
    EndCommentEnds(s[2..]);
  }

  lemma {:induction false} EndCommentEnds(t: string)
    ensures EndComment(t) == |t| || (EndComment(t) >= 2 && t[EndComment(t) - 1] == '/')
    decreases |t|
  {
    if |t| >= 2 && !(t[0] == '*' && t[1] == '/') {
      EndCommentEnds(t[1..]);
    }
  }

  lemma SpaceThenClean(r: string, word: bool)
    requires Clean(r, false) || r == ""
    ensures Clean(" " + r, word)
  {
    hide QuoteAfterSpaces;
    var out := " " + r;
    assert out[1..] == r;
    assert Token(out, word) == (Plain, 1);
  }

  lemma TokenThenClean(x: string, r: string, word: bool)
    requires x != "" && Token(x + r, word).0 != Comment && Token(x + r, word).1 == |x|
    requires Clean(r, IsWord(x[|x| - 1]))
    ensures Clean(x + r, word)
  {
    hide Token;
    var out := x + r;
    assert out[|x|..] == r && out[|x| - 1] == x[|x| - 1];
  }

  /** The front token of the stripped text is the front token of the text. */
  lemma SameTokenAfterStrip(s: string, word: bool)
    requires s != "" && Token(s, word).0 != Comment
    ensures var (kind, n) := Token(s, word);
      Token(s[..n] + Strip(s[n..], IsWord(s[n - 1])), word) == (kind, n)
  {
    hide Strip;
    hide Tail;
    hide TailClosed;
    hide QuoteAfterSpaces;
    var (kind, n) := Token(s, word);
    var r := Strip(s[n..], IsWord(s[n - 1]));
    StripHead(s[n..], IsWord(s[n - 1]));
    assert (s[..n] + r)[0] == s[0];
    match kind
    case Quoted =>
      SameTail(s, r, 1, s[0]);
    case Url =>
      SameTail(s, r, 4, ')');
      UrlStartCopied(s, r, n);
    case Plain =>
      assert s[..n] == [s[0]];
      SamePlain(s, word);
  }

  lemma SameTail(s: string, r: string, from: nat, close: char)
    requires from <= |s| && (from + Tail(s[from..], close) == |s| ==> r == "")
    ensures var n := from + Tail(s[from..], close); Tail((s[..n] + r)[from..], close) == n - from
  {
    hide Tail;
    hide TailClosed;
    var m := Tail(s[from..], close);
    var n := from + m;
    if TailClosed(s[from..], close) {
      assert (s[..n] + r)[from..][..m] == s[from..n] == s[from..][..m];
      TailAgree(s[from..], (s[..n] + r)[from..], close);
    } else {
      OpenTailIsWhole(s[from..], close);
      assert (s[..n] + r)[from..] == s[from..];
    }
  }

  lemma UrlStartCopied(s: string, r: string, n: nat)
    requires UrlStart(s) && n == 4 + Tail(s[4..], ')') && (n == |s| ==> r == "")
    ensures UrlStart(s[..n] + r)
  {
    hide Tail;
    hide TailClosed;
    hide QuoteAfterSpaces;
    var out := s[..n] + r;
    assert out[0] == s[0] && out[1] == s[1] && out[2] == s[2] && out[3] == s[3];
    if TailClosed(s[4..], ')') {
      ClosedEndsInDelimiter(s[4..], ')');
      NonSpaceStopsRun(s[4..], n - 5);
      assert s[4..][..n - 4] == s[4..n] == out[4..][..n - 4];
      QuoteAgree(s[4..], out[4..], n - 4);
    } else {
      OpenTailIsWhole(s[4..], ')');
      assert out == s;
    }
  }

  lemma NonSpaceStopsRun(t: string, i: nat)
    requires i < |t| && t[i] == ')'
    ensures SpaceRun(t) <= i
  {
    if i < SpaceRun(t) {
      SpaceRunIsSpaces(t, i);
    }
  }

  lemma SamePlain(s: string, word: bool)
    requires s != "" && Token(s, word).0 == Plain
    ensures Token([s[0]] + Strip(s[1..], IsWord(s[0])), word) == (Plain, 1)
  {
    hide Strip;
    hide Tail;
    hide QuoteAfterSpaces;
    var r := Strip(s[1..], IsWord(s[0]));
    var out := [s[0]] + r;
    assert s == [s[0]] + s[1..];
    StripHead(s[1..], IsWord(s[0]));
    if !word && UrlStart(out) {
      NoNewUrl(s[0], s[1..]);
    }
    if s[0] == '/' && |out| > 1 {
      assert out[1] == r[0];
    }
  }

  /** Removing comments twice is removing them once. */
  lemma StripIdempotent(css: string, word: bool)
    ensures Strip(Strip(css, word), word) == Strip(css, word)
  {
    StripIsClean(css, word);
    CleanIsKept(Strip(css, word), word);
  }
}
