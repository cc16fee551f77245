/** The style-text scanners: recognising an unquoted url(...), removing comments,
    and marking every declaration !important. The functions read the text token by
    token; the methods below are the index loops and compute the same. */
module PseudoCss {
  predicate IsQuote(c: char) { c == '\'' || c == '"' }

  predicate IsWord(c: char) {
    'a' <= c <= 'z' || 'A' <= c <= 'Z' || '0' <= c <= '9' || c == '_' || c == '-'
  }

  /** Whitespace as both the \s class and trim() take it. */
  predicate IsSpace(c: char) {
    c in {' ', '\t', '\n', '\r', '\U{000B}', '\U{000C}', '\U{00A0}', '\U{1680}', '\U{2028}', '\U{2029}', '\U{202F}',
          '\U{205F}', '\U{3000}', '\U{FEFF}'}
    || '\U{2000}' <= c <= '\U{200A}'
  }

  /** Length of what follows an opening delimiter, up to and including the first
      unescaped closing one, or the whole text if there is none. */
  function Tail(t: string, close: char): (n: nat)
    ensures n <= |t| && (t != "" ==> n > 0)
  {
    if t == "" then 0
    else if t[0] == '\\' then (if |t| == 1 then 1 else 2 + Tail(t[2..], close))
    else if t[0] == close then 1
    else 1 + Tail(t[1..], close)
  }

  function EndComment(t: string): (n: nat)
    ensures n <= |t|
  {
    if |t| < 2 then |t|
    else if t[0] == '*' && t[1] == '/' then 2
    else 1 + EndComment(t[1..])
  }

  function SpaceRun(t: string): (k: nat)
    ensures k <= |t| && (k < |t| ==> !IsSpace(t[k]))
  {
    if t == "" || !IsSpace(t[0]) then 0 else 1 + SpaceRun(t[1..])
  }

  predicate UrlHead(s: string) {
    |s| >= 4 && s[0] in {'u', 'U'} && s[1] in {'r', 'R'} && s[2] in {'l', 'L'} && s[3] == '('
  }

  predicate QuoteAfterSpaces(t: string) { SpaceRun(t) < |t| && IsQuote(t[SpaceRun(t)]) }

  /** An unquoted url( starts here, if no word character comes before it. */
  predicate UrlStart(s: string) { UrlHead(s) && !QuoteAfterSpaces(s[4..]) }

  datatype Kind = Quoted | Comment | Url | Plain

  /** Kind and length of the token at the front of s; word says whether the
      character before it is a word character. */
  function Token(s: string, word: bool): (r: (Kind, nat))
    requires s != ""
    ensures 1 <= r.1 <= |s|
  {
    if IsQuote(s[0]) then (Quoted, 1 + Tail(s[1..], s[0]))
    else if s[0] == '/' && |s| > 1 && s[1] == '*' then (Comment, 2 + EndComment(s[2..]))
    else if !word && UrlStart(s) then (Url, 4 + Tail(s[4..], ')'))
    else (Plain, 1)
  }

  /** The text with every comment replaced by a space. */
  function Strip(s: string, word: bool): string
    decreases |s|
  {
    if s == "" then ""
    else
      var (kind, n) := Token(s, word);
      (if kind == Comment then " " else s[..n]) + Strip(s[n..], IsWord(s[n - 1]))
  }

  lemma StripStep(s: string, word: bool)
    requires s != ""
    ensures var (kind, n) := Token(s, word);
      Strip(s, word) == (if kind == Comment then " " else s[..n]) + Strip(s[n..], IsWord(s[n - 1]))
  {
    hide Token;
  }

  function Deeper(c: char, depth: nat): nat {
    if c == '(' then depth + 1 else if c == ')' && depth > 0 then depth - 1 else depth
  }

  /** Where the first semicolon outside quotes, parentheses and urls is; |s| if
      there is none. This scan does not look for comments. */
  function FirstSemi(s: string, word: bool, depth: nat): (k: nat)
    ensures k <= |s|
    decreases |s|
  {
    if s == "" then 0
    else
      var (kind, n) := Token(s, word);
      if kind == Quoted || kind == Url then n + FirstSemi(s[n..], IsWord(s[n - 1]), depth)
      else if s[0] == ';' && depth == 0 then 0
      else 1 + FirstSemi(s[1..], IsWord(s[0]), Deeper(s[0], depth))
  }

  function Split(s: string): (ps: seq<string>)
    ensures ps != []
    decreases |s|
  {
    var k := FirstSemi(s, false, 0);
    if k == |s| then [s] else [s[..k]] + Split(s[k + 1..])
  }

  function TrimLeft(s: string): string { s[SpaceRun(s)..] }

  function TrimRight(s: string): (r: string)
    ensures r <= s && (r != "" ==> !IsSpace(r[|r| - 1]))
  {
    if s == "" || !IsSpace(s[|s| - 1]) then s else TrimRight(s[..|s| - 1])
  }

  function Trim(s: string): string { TrimRight(TrimLeft(s)) }

  const MARK := " !important"

  predicate FoldEq(c: char, lower: char)
    requires 'a' <= lower <= 'z'
  {
    c == lower || c as int + 32 == lower as int
  }

  predicate IsImportantWord(s: string) {
    |s| == 9 && FoldEq(s[0], 'i') && FoldEq(s[1], 'm') && FoldEq(s[2], 'p') && FoldEq(s[3], 'o') && FoldEq(s[4], 'r')
    && FoldEq(s[5], 't') && FoldEq(s[6], 'a') && FoldEq(s[7], 'n') && FoldEq(s[8], 't')
  }

  /** Ends in "!", spaces, "important" in any case. */
  predicate HasMark(d: string) {
    |d| >= 9 && IsImportantWord(d[|d| - 9..])
    && var r := TrimRight(d[..|d| - 9]); r != "" && r[|r| - 1] == '!'
  }

  function Fixed(d: string): string { if HasMark(d) then d else d + MARK }

  function Declarations(ps: seq<string>): (ds: seq<string>) {
    if ps == [] then []
    else (if Trim(ps[0]) == "" then [] else [Fixed(Trim(ps[0]))]) + Declarations(ps[1..])
  }

  function Join(ds: seq<string>): string {
    if ds == [] then "" else if |ds| == 1 then ds[0] else ds[0] + ";" + Join(ds[1..])
  }

  function Importantify(css: string): string { Join(Declarations(Split(Strip(css, false)))) }

  /* The index loops. */

  predicate WordBefore(css: string, i: int)
    requires i <= |css|
  {
    i > 0 && IsWord(css[i - 1])
  }

  lemma TailAt(css: string, j: nat, close: char)
    requires j < |css|
    ensures Tail(css[j..], close)
            == if css[j] == '\\' then (if j + 1 == |css| then 1 else 2 + Tail(css[j + 2..], close))
               else if css[j] == close then 1 else 1 + Tail(css[j + 1..], close)
  {
    assert css[j..][1..] == css[j + 1..];
    assert j + 1 < |css| ==> css[j..][2..] == css[j + 2..];
  }

  lemma SpaceRunAt(css: string, j: nat)
    requires j < |css|
    ensures SpaceRun(css[j..]) == if IsSpace(css[j]) then 1 + SpaceRun(css[j + 1..]) else 0
  {
    assert css[j..][1..] == css[j + 1..];
  }

  lemma UrlStartHead(css: string, i: nat)
    requires i < |css|
    ensures UrlStart(css[i..]) ==> UrlHead(css[i..])
    ensures UrlHead(css[i..]) ==> i + 4 <= |css| && css[i] in {'u', 'U'}
  {
    hide QuoteAfterSpaces;
  }

  /** Scanning for the end of a url( from behind its leading spaces. */
  lemma UrlStartAt(css: string, i: nat, j: nat)
    requires i + 4 <= j <= |css| && j == i + 4 + SpaceRun(css[i + 4..])
    ensures UrlStart(css[i..]) <==> UrlHead(css[i..]) && !(j < |css| && IsQuote(css[j]))
  {
    assert css[i..][4..] == css[i + 4..];
  }

  method ScanUnquotedUrl(css: string, i: nat) returns (end: int)
    requires i < |css|
    ensures !WordBefore(css, i) && UrlStart(css[i..]) ==> end == i + 4 + Tail(css[i + 4..], ')')
    ensures WordBefore(css, i) || !UrlStart(css[i..]) ==> end == -1
    ensures end == -1 || i + 4 <= end <= |css|
  {
    hide Tail;
    hide SpaceRun;
    hide IsSpace;
    hide UrlStart;
    hide WordBefore;
    UrlStartHead(css, i);
    if (css[i] != 'u' && css[i] != 'U') || !UrlHead(css[i..]) || WordBefore(css, i) {
      return -1;
    }
    hide UrlHead;
    var j := i + 4;
    while j < |css| && IsSpace(css[j])
      invariant i + 4 <= j <= |css|
      invariant j - (i + 4) + SpaceRun(css[j..]) == SpaceRun(css[i + 4..])
      invariant j - (i + 4) + Tail(css[j..], ')') == Tail(css[i + 4..], ')')
    {
      SpaceRunAt(css, j);
      SpaceIsPlain(css[j]);
      TailAt(css, j, ')');
      j := j + 1;
    }
    assert SpaceRun(css[j..]) == 0 by {
      if j < |css| {
        SpaceRunAt(css, j);
      }
    }
    UrlStartAt(css, i, j);
    if j < |css| && IsQuote(css[j]) {
      return -1;
    }
    while j < |css| && css[j] != ')'
      invariant i + 4 <= j <= |css| + 1
      invariant j <= |css| ==> j - (i + 4) + Tail(css[j..], ')') == Tail(css[i + 4..], ')')
      invariant j == |css| + 1 ==> Tail(css[i + 4..], ')') == |css| - (i + 4)
    {
      TailAt(css, j, ')');
      if css[j] == '\\' {
        j := j + 1;
      }
      j := j + 1;
    }
    if j < |css| {
      TailAt(css, j, ')');
    }
    end := if j < |css| then j + 1 else |css|;
  }

  lemma SpaceIsPlain(c: char)
    requires IsSpace(c)
    ensures c != '\\' && c != ')' && !IsQuote(c) && c != '/' && c != ';' && c != '(' && !IsWord(c)
  {
  }

  /** Where the closing star-slash search ends. */
  method FindCommentEnd(css: string, from: nat) returns (end: nat)
    requires from <= |css|
    ensures end == from + EndComment(css[from..])
  {
    end := from;
    while end + 1 < |css| && !(css[end] == '*' && css[end + 1] == '/')
      invariant from <= end <= |css|
      invariant end + EndComment(css[end..]) == from + EndComment(css[from..])
    {
      assert css[end..][1..] == css[end + 1..];
      end := end + 1;
    }
    end := if end + 1 < |css| then end + 2 else |css|;
  }

  /** What is left of the output when the loop stands at index i in a given quote
      state. */
  ghost function StripFrom(css: string, i: nat, quote: char, quoted: bool): string
    requires i <= |css|
  {
    if !quoted then Strip(css[i..], WordBefore(css, i))
    else
      var n := Tail(css[i..], quote);
      css[i..i + n] + Strip(css[i + n..], WordBefore(css, i + n))
  }

  method StripComments(css: string) returns (out: string)
    ensures out == Strip(css, false)
  {
    hide Strip;
    hide StripFrom;
    hide Tail;
    hide EndComment;
    hide UrlStart;
    hide WordBefore;
    out := "";
    StripFromStart(css, '"');
    var quoted, quote := false, '"';
    var i := 0;
    while i < |css|
      invariant i <= |css| && (quoted ==> IsQuote(quote))
      invariant out + StripFrom(css, i, quote, quoted) == Strip(css, false)
    {
      var c := css[i];
      ghost var whole := StripFrom(css, i, quote, quoted);
      var copied: string;
      if quoted {
        if c == '\\' {
          QuotedEscape(css, i, quote);
          copied := if i + 1 < |css| then [c] + [css[i + 1]] else [c];
        } else {
          QuotedChar(css, i, quote);
          quoted := c != quote;
          copied := [c];
        }
        i := i + |copied|;
      } else if IsQuote(c) {
        OpenQuote(css, i, quote);
        quoted, quote := true, c;
        copied := [c];
        i := i + 1;
      } else if c == '/' && i + 1 < |css| && css[i + 1] == '*' {
        CommentStep(css, i, quote);
        i := FindCommentEnd(css, i + 2);
        copied := " ";
      } else {
        PlainStep(css, i, quote);
        var end := ScanUnquotedUrl(css, i);
        if end == -1 {
          end := i + 1;
        }
        copied := css[i..end];
        i := end;
      }
      assert whole == copied + StripFrom(css, i, quote, quoted);
      Reassociate(out, copied, StripFrom(css, i, quote, quoted));
      out := out + copied;
    }
    StripFromEnd(css, quote, quoted);
  }

  lemma StripFromStart(css: string, q: char)
    ensures StripFrom(css, 0, q, false) == Strip(css, false)
  {
    assert css[0..] == css;
  }

  lemma StripFromEnd(css: string, q: char, quoted: bool)
    ensures StripFrom(css, |css|, q, quoted) == ""
  {
  }

  lemma Reassociate(a: string, b: string, c: string)
    ensures a + (b + c) == (a + b) + c
  {
  }

  lemma SliceCons(css: string, i: nat, n: nat)
    requires 1 <= n && i + n <= |css|
    ensures css[i..i + n] == [css[i]] + css[i + 1..i + n]
  {
  }

  lemma InQuotes(css: string, i: nat, quote: char)
    requires i <= |css|
    ensures var n := Tail(css[i..], quote);
      StripFrom(css, i, quote, true) == css[i..i + n] + StripFrom(css, i + n, quote, false)
  {
    hide Strip;
    hide Tail;
    hide IsWord;
  }

  lemma QuotedEscape(css: string, i: nat, quote: char)
    requires i < |css| && css[i] == '\\'
    ensures StripFrom(css, i, quote, true)
            == if i + 1 < |css| then [css[i]] + [css[i + 1]] + StripFrom(css, i + 2, quote, true)
               else [css[i]] + StripFrom(css, i + 1, quote, true)
  {
    hide StripFrom;
    hide Tail;
    TailAt(css, i, quote);
    InQuotes(css, i, quote);
    if i + 1 < |css| {
      InQuotes(css, i + 2, quote);
      var n := Tail(css[i + 2..], quote);
      SliceCons(css, i, 2 + n);
      SliceCons(css, i + 1, 1 + n);
      Reassociate([css[i]] + [css[i + 1]], css[i + 2..i + 2 + n], StripFrom(css, i + 2 + n, quote, false));
      assert css[i..i + 2 + n] == [css[i]] + [css[i + 1]] + css[i + 2..i + 2 + n];
    } else {
      InQuotes(css, i + 1, quote);
      assert Tail(css[i + 1..], quote) == 0;
      assert css[i..i + 1] == [css[i]] && css[i + 1..i + 1] == "";
      assert "" + StripFrom(css, i + 1, quote, false) == StripFrom(css, i + 1, quote, false);
    }
  }

  lemma QuotedChar(css: string, i: nat, quote: char)
    requires i < |css| && css[i] != '\\'
    ensures StripFrom(css, i, quote, true) == [css[i]] + StripFrom(css, i + 1, quote, css[i] != quote)
  {
    hide StripFrom;
    hide Tail;
    TailAt(css, i, quote);
    InQuotes(css, i, quote);
    var n := Tail(css[i..], quote);
    SliceCons(css, i, n);
    if css[i] == quote {
      assert css[i + 1..i + 1] == "" && [css[i]] + "" == [css[i]];
    } else {
      InQuotes(css, i + 1, quote);
      Reassociate([css[i]], css[i + 1..i + n], StripFrom(css, i + n, quote, false));
    }
  }

  /** One token of the stripped text, at an index. */
  lemma StripAt(css: string, i: nat, q: char, kind: Kind, n: nat)
    requires i < |css| && Token(css[i..], WordBefore(css, i)) == (kind, n)
    ensures i + n <= |css|
    ensures StripFrom(css, i, q, false)
            == (if kind == Comment then " " else css[i..i + n]) + StripFrom(css, i + n, q, false)
  {
    hide Strip;
    hide Token;
    StripStep(css[i..], WordBefore(css, i));
    assert css[i..][..n] == css[i..i + n] && css[i..][n..] == css[i + n..] && css[i..][n - 1] == css[i + n - 1];
  }

  lemma UnquotedFrom(css: string, i: nat, q: char)
    requires i <= |css|
    ensures StripFrom(css, i, q, false) == Strip(css[i..], WordBefore(css, i))
  {
    hide Strip;
  }

  lemma TokenAtQuote(css: string, i: nat)
    requires i < |css| && IsQuote(css[i])
    ensures Token(css[i..], WordBefore(css, i)) == (Quoted, 1 + Tail(css[i + 1..], css[i]))
  {
    hide Tail;
    hide IsWord;
    assert css[i..][1..] == css[i + 1..];
  }

  lemma QuotedFrom(css: string, i: nat, n: nat)
    requires i < |css| && IsQuote(css[i]) && n == 1 + Tail(css[i + 1..], css[i])
    ensures StripFrom(css, i + 1, css[i], true) == css[i + 1..i + n] + Strip(css[i + n..], WordBefore(css, i + n))
  {
    hide Tail;
    hide IsWord;
    hide Strip;
  }

  lemma OpenQuote(css: string, i: nat, q: char)
    requires i < |css| && IsQuote(css[i])
    ensures StripFrom(css, i, q, false) == [css[i]] + StripFrom(css, i + 1, css[i], true)
  {
    hide Tail;
    hide IsWord;
    hide Strip;
    hide Token;
    var n := 1 + Tail(css[i + 1..], css[i]);
    TokenAtQuote(css, i);
    QuotedFrom(css, i, n);
    hide StripFrom;
    StripAt(css, i, q, Quoted, n);
    assert StripFrom(css, i + n, q, false) == Strip(css[i + n..], WordBefore(css, i + n)) by {
      UnquotedFrom(css, i + n, q);
    }
    var rest := Strip(css[i + n..], WordBefore(css, i + n));
    assert css[i..i + n] == [css[i]] + css[i + 1..i + n];
    Reassociate([css[i]], css[i + 1..i + n], rest);
  }
  lemma CommentStep(css: string, i: nat, q: char)
    requires i + 1 < |css| && css[i] == '/' && css[i + 1] == '*'
    ensures var end := i + 2 + EndComment(css[i + 2..]);
      StripFrom(css, i, q, false) == " " + StripFrom(css, end, q, false)
  {
    hide Strip;
    hide EndComment;
    assert css[i..][2..] == css[i + 2..];
    StripAt(css, i, q, Comment, 2 + EndComment(css[i + 2..]));
  }

  lemma PlainStep(css: string, i: nat, q: char)
    requires i < |css| && !IsQuote(css[i]) && !(css[i] == '/' && i + 1 < |css| && css[i + 1] == '*')
    ensures var end := if !WordBefore(css, i) && UrlStart(css[i..]) then i + 4 + Tail(css[i + 4..], ')') else i + 1;
      end <= |css| && StripFrom(css, i, q, false) == css[i..end] + StripFrom(css, end, q, false)
  {
    hide Strip;
    hide Tail;
    hide QuoteAfterSpaces;
    hide StripFrom;
    var (kind, n) := Token(css[i..], WordBefore(css, i));
    assert |css[i..]| >= 4 ==> css[i..][4..] == css[i + 4..];
    StripAt(css, i, q, kind, n);
  }

  /** The pieces still to come when the splitting loop stands at index i, outside
      quotes, with the current piece begun at start. */
  ghost function SplitFrom(css: string, start: nat, i: nat, depth: nat): seq<string>
    requires start <= i <= |css|
  {
    var k := i + FirstSemi(css[i..], WordBefore(css, i), depth);
    if k == |css| then [css[start..]] else [css[start..k]] + Split(css[k + 1..])
  }

  /** The same inside a quoted string. */
  ghost function SplitQuoted(css: string, start: nat, i: nat, depth: nat, quote: char, quoted: bool): seq<string>
    requires start <= i <= |css|
  {
    SplitFrom(css, start, if quoted then i + Tail(css[i..], quote) else i, depth)
  }

  method SplitDeclarations(css: string) returns (decls: seq<string>)
    ensures decls == Split(css)
  {
    hide Split;
    hide SplitFrom;
    hide Tail;
    hide UrlStart;
    hide WordBefore;
    decls := [];
    var start, i := 0, 0;
    var depth: nat := 0;
    var quoted, quote := false, '"';
    SplitFromBegin(css);
    while i < |css|
      invariant start <= i <= |css| && (quoted ==> IsQuote(quote))
      invariant decls + SplitQuoted(css, start, i, depth, quote, quoted) == Split(css)
    {
      var c := css[i];
      if quoted {
        TailAt(css, i, quote);
        if c == '\\' {
          i := if i + 1 < |css| then i + 2 else i + 1;
        } else {
          quoted := c != quote;
          i := i + 1;
        }
      } else if IsQuote(c) {
        SplitAtQuote(css, start, i, depth);
        quoted, quote := true, c;
        i := i + 1;
      } else if c == ';' && depth == 0 {
        SplitAtSemi(css, start, i);
        SplitFromStart(css, i + 1);
        Reassociate2(decls, [css[start..i]], Split(css[i + 1..]));
        decls := decls + [css[start..i]];
        start := i + 1;
        i := i + 1;
      } else {
        SplitAtPlain(css, start, i, depth);
        if c == '(' {
          depth := depth + 1;
          i := i + 1;
        } else if c == ')' {
          depth := if depth > 0 then depth - 1 else 0;
          i := i + 1;
        } else {
          var end := ScanUnquotedUrl(css, i);
          i := if end == -1 then i + 1 else end;
        }
      }
    }
    SplitFromEnd(css, start, depth);
    decls := decls + [css[start..]];
  }

  method ImportantifyText(css: string) returns (out: string)
    ensures out == Importantify(css)
  {
    var text := StripComments(css);
    var decls := SplitDeclarations(text);
    out := Join(Declarations(decls));
  }

  lemma Reassociate2(a: seq<string>, b: seq<string>, c: seq<string>)
    ensures a + (b + c) == (a + b) + c
  {
  }

  lemma SplitFromStart(css: string, i: nat)
    requires i <= |css| && !WordBefore(css, i)
    ensures SplitFrom(css, i, i, 0) == Split(css[i..])
  {
    hide FirstSemi;
    var k := FirstSemi(css[i..], false, 0);
    assert css[i..][..k] == css[i..i + k];
    assert k < |css[i..]| ==> css[i..][k + 1..] == css[i + k + 1..];
  }

  lemma SplitFromBegin(css: string)
    ensures SplitFrom(css, 0, 0, 0) == Split(css)
  {
    SplitFromStart(css, 0);
    assert css[0..] == css;
  }

  lemma SplitFromEnd(css: string, start: nat, depth: nat)
    requires start <= |css|
    ensures SplitFrom(css, start, |css|, depth) == [css[start..]]
  {
  }

  /** One step of the semicolon scan, at an index. */
  lemma SemiAt(css: string, i: nat, depth: nat)
    requires i < |css|
    ensures var (kind, n) := Token(css[i..], WordBefore(css, i));
      && i + n <= |css|
      && FirstSemi(css[i..], WordBefore(css, i), depth)
         == if kind == Quoted || kind == Url then n + FirstSemi(css[i + n..], WordBefore(css, i + n), depth)
            else if css[i] == ';' && depth == 0 then 0
            else 1 + FirstSemi(css[i + 1..], WordBefore(css, i + 1), Deeper(css[i], depth))
  {
    hide Token;
    hide IsWord;
    var n := Token(css[i..], WordBefore(css, i)).1;
    assert css[i..][n..] == css[i + n..] && css[i..][n - 1] == css[i + n - 1];
    assert css[i..][1..] == css[i + 1..];
  }

  lemma SplitAtQuote(css: string, start: nat, i: nat, depth: nat)
    requires start <= i < |css| && IsQuote(css[i])
    ensures SplitFrom(css, start, i, depth) == SplitFrom(css, start, i + 1 + Tail(css[i + 1..], css[i]), depth)
  {
    hide FirstSemi;
    hide Tail;
    hide Split;
    hide SplitFrom;
    hide WordBefore;
    TokenAtQuote(css, i);
    hide Token;
    SemiAt(css, i, depth);
    SplitFromSame(css, start, i, depth, i + 1 + Tail(css[i + 1..], css[i]), depth);
  }

  lemma SplitAtSemi(css: string, start: nat, i: nat)
    requires start <= i < |css| && css[i] == ';'
    ensures SplitFrom(css, start, i, 0) == [css[start..i]] + Split(css[i + 1..])
    ensures !WordBefore(css, i + 1)
  {
    hide FirstSemi;
    hide Split;
    hide Tail;
    hide QuoteAfterSpaces;
    SemiAt(css, i, 0);
  }

  /** The token at an index that opens neither a quoted string nor a comment, or
      opens a comment, which this scan reads as plain text. */
  lemma PlainTokenAt(css: string, i: nat)
    requires i < |css| && !IsQuote(css[i])
    ensures var url, (kind, n) := !WordBefore(css, i) && UrlStart(css[i..]), Token(css[i..], WordBefore(css, i));
      && (url ==> css[i] in {'u', 'U'} && i + 4 <= |css| && kind == Url && n == 4 + Tail(css[i + 4..], ')'))
      && (!url ==> kind != Quoted && kind != Url)
  {
    hide Tail;
    hide EndComment;
    hide QuoteAfterSpaces;
    assert |css[i..]| >= 4 ==> css[i..][4..] == css[i + 4..];
  }

  lemma SplitFromSame(css: string, start: nat, i: nat, d: nat, j: nat, e: nat)
    requires start <= i <= |css| && start <= j <= |css|
    requires i + FirstSemi(css[i..], WordBefore(css, i), d) == j + FirstSemi(css[j..], WordBefore(css, j), e)
    ensures SplitFrom(css, start, i, d) == SplitFrom(css, start, j, e)
  {
    hide FirstSemi;
    hide Split;
    hide WordBefore;
  }

  lemma SplitAtPlain(css: string, start: nat, i: nat, depth: nat)
    requires start <= i < |css| && !IsQuote(css[i]) && !(css[i] == ';' && depth == 0)
    ensures var url := !WordBefore(css, i) && UrlStart(css[i..]);
      var end := if url then i + 4 + Tail(css[i + 4..], ')') else i + 1;
      && i < end <= |css|
      && (url ==> css[i] in {'u', 'U'})
      && SplitFrom(css, start, i, depth) == SplitFrom(css, start, end, Deeper(css[i], depth))
  {
    hide FirstSemi;
    hide Split;
    PlainTokenAt(css, i);
    hide Token;
    hide Tail;
    hide UrlStart;
    hide SplitFrom;
    hide WordBefore;
    hide Deeper;
    SemiAt(css, i, depth);
    var url := !WordBefore(css, i) && UrlStart(css[i..]);
    if url {
      UrlIsLevel(css[i], depth);
      SplitFromSame(css, start, i, depth, i + 4 + Tail(css[i + 4..], ')'), depth);
    } else {
      SplitFromSame(css, start, i, depth, i + 1, Deeper(css[i], depth));
    }
  }

  lemma UrlIsLevel(c: char, depth: nat)
    requires c in {'u', 'U'}
    ensures Deeper(c, depth) == depth
  {
  }
}
