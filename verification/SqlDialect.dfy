/**
 The lexical rules of MySQL that the multi-statement scanner (`src/parser/sql_parser.cpp`) does not have: two dashes
 open a comment only before a blank, and backticks quote identifiers. Where a text uses neither against the scanner,
 the scanner is right about it.
 */
module SqlDialect {
  import opened Slices
  import opened Text
  import opened SqlScanner

  /** A token of the scanner, or an identifier between backticks. */
  datatype Lexeme = Tok(t: Token) | Ident(body: string)

  function PrintLexeme(x: Lexeme): (s: string)
    ensures s != []
  {
    match x
    case Tok(t) => PrintToken(t)
    case Ident(body) => "`" + body + "`"
  }

  function PrintAll(xs: seq<Lexeme>, tail: Tail): string {
    if xs == [] then PrintTail(tail) else PrintLexeme(xs[0]) + PrintAll(xs[1..], tail)
  }

  /** A blank or a control character, or the end of the text. */
  predicate BlankStart(s: string) {
    s == "" || s[0] <= ' '
  }

  /** A lexeme of MySQL when `rest` is the text behind it. */
  predicate ValidLexeme(x: Lexeme, rest: string) {
    match x
    case Ident(body) => '`' !in body && !StartsWith(rest, '`')
    case Tok(Plain(c)) =>
      && !IsQuote(c) && c != '#' && c != ';' && c != '`'
      && (c == '/' ==> !StartsWith(rest, '*'))
      && (c == '-' && StartsWith(rest, '-') ==> !BlankStart(rest[1..]))
    case Tok(Line(body)) => '\n' !in body && BlankStart(body)
    case Tok(t) => ValidToken(t, rest)
  }

  predicate ValidEnd(tail: Tail) {
    ValidTail(tail) && (tail.OpenLine? ==> BlankStart(tail.body))
  }

  predicate ValidLexemes(xs: seq<Lexeme>, tail: Tail) {
    if xs == [] then ValidEnd(tail)
    else ValidLexeme(xs[0], PrintAll(xs[1..], tail)) && ValidLexemes(xs[1..], tail)
  }

  /** A top-level semicolon with something other than whitespace behind the first one. */
  predicate SeveralStatements(xs: seq<Lexeme>, tail: Tail) {
    if xs == [] then false
    else if xs[0] == Tok(Semi) then !AllSpace(PrintAll(xs[1..], tail))
    else SeveralStatements(xs[1..], tail)
  }

  /** Nothing in `s` at `k` is a quote, a semicolon or the start of a comment for the scanner. */
  predicate Harmless(s: string, k: nat)
    requires k < |s|
  {
    && !IsQuote(s[k]) && s[k] != '#' && s[k] != ';'
    && (s[k] == '/' && k + 1 < |s| ==> s[k + 1] != '*') && (s[k] == '-' && k + 1 < |s| ==> s[k + 1] != '-')
  }

  /** Two dashes only before a blank, and no quote, comment mark or semicolon between backticks. */
  predicate ClearOf(x: Lexeme, rest: string) {
    && (x == Tok(Plain('-')) ==> !StartsWith(rest, '-'))
    && (x.Ident? ==> forall k :: 0 <= k < |x.body| ==> Harmless(x.body, k))
  }

  predicate Clear(xs: seq<Lexeme>, tail: Tail) {
    xs != [] ==> ClearOf(xs[0], PrintAll(xs[1..], tail)) && Clear(xs[1..], tail)
  }

  /** Harmless characters are stepped over. */
  lemma {:induction false} ThroughHarmless(s: string, i: nat, e: nat)
    requires i <= e <= |s| && forall k :: i <= k < e ==> Harmless(s, k)
    ensures Scan(s, i, Normal) == Scan(s, e, Normal)
    decreases e - i
  {
    if i < e {
      assert Harmless(s, i);
      ThroughHarmless(s, i + 1, e);
    }
  }

  lemma ThroughIdent(s: string, i: nat, body: string)
    requires At(s, i, "`" + body + "`") && forall k :: 0 <= k < |body| ==> Harmless(body, k)
    ensures Scan(s, i, Normal) == Scan(s, i + |body| + 2, Normal)
  {
    hide Scan;
    var p := "`" + body + "`";
    CharsAt(s, i, p);
    var e := i + |p|;
    assert s[i] == '`' && s[e - 1] == '`';
    forall k | i <= k < e ensures Harmless(s, k) {
      if i < k < e - 1 {
        assert s[k] == body[k - i - 1] && Harmless(body, k - i - 1);
        assert k + 1 < e - 1 ==> s[k + 1] == body[k - i];
      }
    }
    ThroughHarmless(s, i, e);
  }

  /** On clear lexemes the scanner's own rules say the same. */
  lemma SameToken(t: Token, rest: string)
    requires ValidLexeme(Tok(t), rest) && (t == Plain('-') ==> !StartsWith(rest, '-'))
    ensures ValidToken(t, rest)
  {
    hide QuotedBody, NoClose;
  }

  lemma ThroughLexeme(s: string, i: nat, x: Lexeme, rest: string)
    requires At(s, i, PrintLexeme(x)) && s[i + |PrintLexeme(x)|..] == rest && ValidLexeme(x, rest)
    requires ClearOf(x, rest) && x != Tok(Semi)
    ensures Scan(s, i, Normal) == Scan(s, i + |PrintLexeme(x)|, Normal)
  {
    hide Scan, At, ValidLexeme, ValidToken, PrintToken, Harmless;
    match x
    case Ident(body) =>
      ThroughIdent(s, i, body);
    case Tok(t) =>
      SameToken(t, rest);
      ThroughToken(s, i, t, rest);
  }

  lemma {:induction false} RightFrom(s: string, i: nat, xs: seq<Lexeme>, tail: Tail)
    requires i <= |s| && s[i..] == PrintAll(xs, tail) && ValidLexemes(xs, tail) && Clear(xs, tail)
    ensures Scan(s, i, Normal) == SeveralStatements(xs, tail)
    decreases |xs|
  {
    hide ValidLexeme, PrintTail, PrintLexeme, AllSpace, Scan, At, ValidTail, ClearOf;
    if xs == [] {
      ThroughTail(s, i, tail);
    } else {
      var p, rest := PrintLexeme(xs[0]), PrintAll(xs[1..], tail);
      SuffixSplit(s, i, p, rest);
      if xs[0] == Tok(Semi) {
        SemicolonAt(s, i);
      } else {
        ThroughLexeme(s, i, xs[0], rest);
        RightFrom(s, i + |p|, xs[1..], tail);
      }
    }
  }

  lemma SemicolonAt(s: string, i: nat)
    requires At(s, i, PrintLexeme(Tok(Semi)))
    ensures |PrintLexeme(Tok(Semi))| == 1 && Scan(s, i, Normal) == !AllSpace(s[i + 1..])
  {
    hide Scan, AllSpace;
    AtSemicolon(s, i);
  }

  /** On every text of MySQL that is clear, the scanner is right. */
  lemma ScannerRight(xs: seq<Lexeme>, tail: Tail)
    requires ValidLexemes(xs, tail) && Clear(xs, tail)
    ensures Scan(PrintAll(xs, tail), 0, Normal) == SeveralStatements(xs, tail)
  {
    hide Scan, PrintAll, ValidLexemes, Clear, SeveralStatements;
    var s := PrintAll(xs, tail);
    assert s[0..] == s;
    RightFrom(s, 0, xs, tail);
  }

  // ------------------------------------------------------------ where it is not

  /** Behind two dashes, blank or not, the scanner sees nothing up to the line break. */
  lemma DashesHideRest(pre: string, u: string)
    requires (forall k :: 0 <= k < |pre| ==> Harmless(pre, k)) && (pre != "" ==> pre[|pre| - 1] != '-') && '\n' !in u
    ensures !Scan(pre + ("--" + u), 0, Normal)
  {
    hide Scan;
    var s, i := pre + ("--" + u), |pre|;
    forall k | 0 <= k < i ensures Harmless(s, k) {
      assert Harmless(pre, k) && s[k] == pre[k] && (k + 1 < i ==> s[k + 1] == pre[k + 1]);
    }
    ThroughHarmless(s, 0, i);
    assert s[i..] == PrintTail(OpenLine(u));
    ThroughTail(s, i, OpenLine(u));
  }

  /** Behind a quote, even one between backticks, it sees nothing up to the next one. */
  lemma QuoteHidesRest(pre: string, q: char, u: string)
    requires forall k :: 0 <= k < |pre| ==> Harmless(pre, k)
    requires IsQuote(q) && OpenBody(q, u)
    ensures !Scan(pre + ([q] + u), 0, Normal)
  {
    hide Scan, OpenBody;
    var s, i := pre + ([q] + u), |pre|;
    forall k | 0 <= k < i ensures Harmless(s, k) {
      assert Harmless(pre, k) && s[k] == pre[k] && (k + 1 < i ==> s[k + 1] == pre[k + 1]);
    }
    ThroughHarmless(s, 0, i);
    assert s[i..] == PrintTail(OpenQuote(q, u));
    ThroughTail(s, i, OpenQuote(q, u));
  }

  const DASHES := [Tok(Plain('1')), Tok(Plain('-')), Tok(Plain('-')), Tok(Plain('1')), Tok(Semi), Tok(Plain('2'))]
  const BACKTICKS := [Ident("'"), Tok(Semi), Tok(Plain('2'))]

  lemma PrintStep(x: Lexeme, xs: seq<Lexeme>)
    ensures PrintAll([x] + xs, Whole) == PrintLexeme(x) + PrintAll(xs, Whole)
    ensures ValidLexemes([x] + xs, Whole) <==> ValidLexeme(x, PrintAll(xs, Whole)) && ValidLexemes(xs, Whole)
    ensures x != Tok(Semi) ==> SeveralStatements([x] + xs, Whole) == SeveralStatements(xs, Whole)
    ensures x == Tok(Semi) ==> SeveralStatements([x] + xs, Whole) == !AllSpace(PrintAll(xs, Whole))
  {
    hide ValidLexeme, PrintLexeme, AllSpace;
    assert ([x] + xs)[1..] == xs;
  }

  /** A difference and a second statement: two statements that the scanner takes for one. */
  lemma DashesMissed()
    ensures ValidLexemes(DASHES, Whole) && SeveralStatements(DASHES, Whole)
    ensures PrintAll(DASHES, Whole) == "1--1;2" && !Scan("1--1;2", 0, Normal)
  {
    var x5 := [Tok(Plain('2'))];
    var x4 := [Tok(Semi)] + x5;
    var x3 := [Tok(Plain('1'))] + x4;
    var x2 := [Tok(Plain('-'))] + x3;
    var x1 := [Tok(Plain('-'))] + x2;
    hide ValidLexemes, SeveralStatements, PrintAll, Scan;
    Ends('2');
    PrintStep(Tok(Semi), x5);
    PrintStep(Tok(Plain('1')), x4);
    PrintStep(Tok(Plain('-')), x3);
    PrintStep(Tok(Plain('-')), x2);
    PrintStep(Tok(Plain('1')), x1);
    assert DASHES == [Tok(Plain('1'))] + x1;
    DashesHideRest("1", "1;2");
    assert "1" + ("--" + "1;2") == "1--1;2";
  }

  /** An identifier that holds a quote, and a second statement. */
  lemma BacktickMissed()
    ensures ValidLexemes(BACKTICKS, Whole) && SeveralStatements(BACKTICKS, Whole)
    ensures PrintAll(BACKTICKS, Whole) == "`'`;2" && !Scan("`'`;2", 0, Normal)
  {
    var x2 := [Tok(Plain('2'))];
    var x1 := [Tok(Semi)] + x2;
    assert OpenBody('\'', "`;2") by {
      assert "`;2"[1..] == ";2" && ";2"[1..] == "2" && "2"[1..] == "";
    }
    hide ValidLexemes, SeveralStatements, PrintAll, Scan, OpenBody;
    Ends('2');
    PrintStep(Tok(Semi), x2);
    PrintStep(Ident("'"), x1);
    assert BACKTICKS == [Ident("'")] + x1;
    QuoteHidesRest("`", '\'', "`;2");
    assert "`" + (['\''] + "`;2") == "`'`;2";
  }

  lemma Ends(c: char)
    requires 'a' <= c <= 'z' || '0' <= c <= '9'
    ensures PrintAll([Tok(Plain(c))], Whole) == [c] && ValidLexemes([Tok(Plain(c))], Whole) && !AllSpace([c])
  {
    assert [Tok(Plain(c))][1..] == [];
    assert PrintAll([], Whole) == "";
    assert !IsSpace([c][0]);
  }
}
