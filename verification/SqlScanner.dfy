/**
 The multi-statement scanner of the SQL parser (`has_semicolon_outside_string_or_comment`,
 `src/parser/sql_parser.cpp`) against SQL text seen as a list of lexical tokens.
 */
module SqlScanner {
  import opened Slices
  import opened Text

  // --------------------------------------------------------------- token level

  /**
   A complete token. `Quoted` holds the text between its quotes with the escapes still in it; comments
   hold the text between their delimiters.
   */
  datatype Token =
    | Plain(c: char) | Semi | Quoted(q: char, body: string)
    | Block(body: string) | Line(body: string) | Hash(body: string)

  /** What the text ends with: nothing, or a string or comment that is never closed. */
  datatype Tail =
    | Whole | OpenQuote(q: char, body: string)
    | OpenBlock(body: string) | OpenLine(body: string) | OpenHash(body: string)

  function PrintToken(t: Token): (s: string)
    ensures s != []
  {
    match t
    case Plain(c) => [c]
    case Semi => ";"
    case Quoted(q, body) => [q] + body + [q]
    case Block(body) => "/*" + body + "*/"
    case Line(body) => "--" + body + "\n"
    case Hash(body) => "#" + body + "\n"
  }

  function PrintTail(t: Tail): string {
    match t
    case Whole => ""
    case OpenQuote(q, body) => [q] + body
    case OpenBlock(body) => "/*" + body
    case OpenLine(body) => "--" + body
    case OpenHash(body) => "#" + body
  }

  function Print(ts: seq<Token>, tail: Tail): string {
    if ts == [] then PrintTail(tail) else PrintToken(ts[0]) + Print(ts[1..], tail)
  }

  predicate IsQuote(c: char) {
    c == '\'' || c == '"'
  }

  /** String content: a backslash takes the next character with it, and quotes come doubled. */
  predicate QuotedBody(q: char, b: string) {
    if b == [] then true
    else if b[0] == '\\' then |b| >= 2 && QuotedBody(q, b[2..])
    else if b[0] == q then |b| >= 2 && b[1] == q && QuotedBody(q, b[2..])
    else QuotedBody(q, b[1..])
  }

  /** Content of a string that is never closed; it may end in a lone backslash. */
  predicate OpenBody(q: char, b: string) {
    if b == [] then true
    else if b[0] == '\\' then |b| == 1 || OpenBody(q, b[2..])
    else if b[0] == q then |b| >= 2 && b[1] == q && OpenBody(q, b[2..])
    else OpenBody(q, b[1..])
  }

  predicate NoClose(b: string) {
    forall i :: 0 <= i < |b| - 1 && b[i] == '*' ==> b[i + 1] != '/'
  }

  predicate StartsWith(s: string, c: char) {
    s != [] && s[0] == c
  }

  /** `t` is a token of its kind when `rest` is the text behind it. */
  predicate ValidToken(t: Token, rest: string) {
    match t
    case Plain(c) =>
      && !IsQuote(c) && c != '#' && c != ';'
      && (c == '/' ==> !StartsWith(rest, '*')) && (c == '-' ==> !StartsWith(rest, '-'))
    case Semi => true
    case Quoted(q, body) => IsQuote(q) && QuotedBody(q, body) && !StartsWith(rest, q)
    case Block(body) => NoClose(body)
    case Line(body) => '\n' !in body
    case Hash(body) => '\n' !in body
  }

  predicate ValidTail(t: Tail) {
    match t
    case Whole => true
    case OpenQuote(q, body) => IsQuote(q) && OpenBody(q, body)
    case OpenBlock(body) => NoClose(body)
    case OpenLine(body) => '\n' !in body
    case OpenHash(body) => '\n' !in body
  }

  predicate ValidText(ts: seq<Token>, tail: Tail) {
    if ts == [] then ValidTail(tail) else ValidToken(ts[0], Print(ts[1..], tail)) && ValidText(ts[1..], tail)
  }

  /** The specification: a top-level semicolon with something other than whitespace behind the first one. */
  predicate MultiStatement(ts: seq<Token>, tail: Tail) {
    if ts == [] then false
    else if ts[0].Semi? then !AllSpace(Print(ts[1..], tail))
    else MultiStatement(ts[1..], tail)
  }

  // ----------------------------------------------------------- character level

  datatype State = Normal | SingleQuote | DoubleQuote | BlockComment | LineComment | HashComment

  /** The scanner from index `i` in a given state. */
  predicate Scan(s: string, i: nat, state: State)
    decreases |s| - i
  {
    if i >= |s| then false
    else
      var c := s[i];
      var next := if i + 1 < |s| then s[i + 1] else '\0';
      match state
      case Normal =>
        if c == '\'' then Scan(s, i + 1, SingleQuote)
        else if c == '"' then Scan(s, i + 1, DoubleQuote)
        else if c == '/' && next == '*' then Scan(s, i + 2, BlockComment)
        else if c == '-' && next == '-' then Scan(s, i + 2, LineComment)
        else if c == '#' then Scan(s, i + 1, HashComment)
        else if c == ';' then !AllSpace(s[i + 1..])
        else Scan(s, i + 1, Normal)
      case SingleQuote =>
        if c == '\\' then Scan(s, i + 2, SingleQuote)
        else if c == '\'' then if next == '\'' then Scan(s, i + 2, SingleQuote) else Scan(s, i + 1, Normal)
        else Scan(s, i + 1, SingleQuote)
      case DoubleQuote =>
        if c == '\\' then Scan(s, i + 2, DoubleQuote)
        else if c == '"' then if next == '"' then Scan(s, i + 2, DoubleQuote) else Scan(s, i + 1, Normal)
        else Scan(s, i + 1, DoubleQuote)
      case BlockComment =>
        if c == '*' && next == '/' then Scan(s, i + 2, Normal) else Scan(s, i + 1, BlockComment)
      case LineComment => Scan(s, i + 1, if c == '\n' then Normal else LineComment)
      case HashComment => Scan(s, i + 1, if c == '\n' then Normal else HashComment)
  }

  /** `has_semicolon_outside_string_or_comment`: one pass, skipping escaped and two-character marks. */
  method HasSemicolonOutsideStringOrComment(sql: string) returns (r: bool)
    ensures r == Scan(sql, 0, Normal)
  {
    var state := Normal;
    var len := |sql|;
    var i := 0;
    while i < len
      invariant 0 <= i <= len + 1
      invariant Scan(sql, 0, Normal) == Scan(sql, i, state)
      decreases len - i
    {
      var c := sql[i];
      var next := if i + 1 < len then sql[i + 1] else '\0';
      match state {
        case Normal =>
          if c == '\'' {
            state := SingleQuote;
          } else if c == '"' {
            state := DoubleQuote;
          } else if c == '/' && next == '*' {
            state := BlockComment;
            i := i + 1;
          } else if c == '-' && next == '-' {
            state := LineComment;
            i := i + 1;
          } else if c == '#' {
            state := HashComment;
          } else if c == ';' {
            var onlyWhitespace := OnlyWhitespace(sql, i + 1);
            return !onlyWhitespace;
          }
        case SingleQuote =>
          if c == '\\' {
            i := i + 1;
          } else if c == '\'' {
            if next == '\'' {
              i := i + 1;
            } else {
              state := Normal;
            }
          }
        case DoubleQuote =>
          if c == '\\' {
            i := i + 1;
          } else if c == '"' {
            if next == '"' {
              i := i + 1;
            } else {
              state := Normal;
            }
          }
        case BlockComment =>
          if c == '*' && next == '/' {
            state := Normal;
            i := i + 1;
          }
        case LineComment =>
          if c == '\n' { state := Normal; }
        case HashComment =>
          if c == '\n' { state := Normal; }
      }
      i := i + 1;
    }
    return false;
  }

  method OnlyWhitespace(sql: string, from: nat) returns (r: bool)
    requires from <= |sql|
    ensures r == AllSpace(sql[from..])
  {
    for k := from to |sql|
      invariant forall j :: from <= j < k ==> IsSpace(sql[j])
    {
      if !IsSpace(sql[k]) {
        assert sql[from..][k - from] == sql[k];
        return false;
      }
    }
    return true;
  }

  // -------------------------------------------------- inside strings and comments

  function StateOf(q: char): State {
    if q == '\'' then SingleQuote else DoubleQuote
  }

  lemma AtTail(s: string, i: nat, part: string, n: nat)
    requires At(s, i, part) && n <= |part|
    ensures At(s, i + n, part[n..]) && forall k :: 0 <= k < n ==> s[i + k] == part[k]
  {
  }

  /** A closed string is left exactly at its closing quote, whatever it contains. */
  lemma {:induction false} ThroughString(s: string, i: nat, q: char, body: string)
    requires IsQuote(q) && QuotedBody(q, body) && At(s, i, body)
    requires i + |body| < |s| && s[i + |body|] == q && (i + |body| + 1 < |s| ==> s[i + |body| + 1] != q)
    ensures Scan(s, i, StateOf(q)) == Scan(s, i + |body| + 1, Normal)
    decreases |body|
  {
    if body != [] {
      var n := if body[0] == '\\' || body[0] == q then 2 else 1;
      AtTail(s, i, body, n);
      ThroughString(s, i + n, q, body[n..]);
    }
  }

  lemma {:induction false} OpenStringEnds(s: string, i: nat, q: char, body: string)
    requires IsQuote(q) && OpenBody(q, body) && At(s, i, body) && i + |body| == |s|
    ensures !Scan(s, i, StateOf(q))
    decreases |body|
  {
    if |body| > 1 || (|body| == 1 && body[0] != '\\') {
      var n := if body[0] == '\\' || body[0] == q then 2 else 1;
      AtTail(s, i, body, n);
      OpenStringEnds(s, i + n, q, body[n..]);
    }
  }

  lemma {:induction false} ThroughBlock(s: string, i: nat, end: nat)
    requires i <= end && end + 1 < |s| && s[end] == '*' && s[end + 1] == '/'
    requires forall k :: i <= k < end && s[k] == '*' ==> s[k + 1] != '/'
    ensures Scan(s, i, BlockComment) == Scan(s, end + 2, Normal)
    decreases end - i
  {
    if i < end { ThroughBlock(s, i + 1, end); }
  }

  lemma {:induction false} OpenBlockEnds(s: string, i: nat)
    requires forall k :: i <= k < |s| - 1 && s[k] == '*' ==> s[k + 1] != '/'
    ensures !Scan(s, i, BlockComment)
    decreases |s| - i
  {
    if i < |s| { OpenBlockEnds(s, i + 1); }
  }

  lemma {:induction false} ThroughLine(s: string, i: nat, end: nat, state: State)
    requires state.LineComment? || state.HashComment?
    requires i <= end < |s| && s[end] == '\n' && forall k :: i <= k < end ==> s[k] != '\n'
    ensures Scan(s, i, state) == Scan(s, end + 1, Normal)
    decreases end - i
  {
    if i < end { ThroughLine(s, i + 1, end, state); }
  }

  lemma {:induction false} OpenLineEnds(s: string, i: nat, state: State)
    requires state.LineComment? || state.HashComment?
    requires forall k :: i <= k < |s| ==> s[k] != '\n'
    ensures !Scan(s, i, state)
    decreases |s| - i
  {
    if i < |s| { OpenLineEnds(s, i + 1, state); }
  }

  // ----------------------------------------------------------------- agreement

  lemma CharsAt(s: string, i: nat, part: string)
    requires At(s, i, part)
    ensures forall k :: i <= k < i + |part| ==> s[k] == part[k - i]
  {
  }

  lemma ThroughQuoted(s: string, i: nat, q: char, body: string)
    requires IsQuote(q) && QuotedBody(q, body) && At(s, i, [q] + body + [q])
    requires i + |body| + 2 < |s| ==> s[i + |body| + 2] != q
    ensures Scan(s, i, Normal) == Scan(s, i + |body| + 2, Normal)
  {
    hide QuotedBody;
    var p := [q] + body + [q];
    CharsAt(s, i, p);
    assert s[i + 1..i + 1 + |body|] == p[1..1 + |body|] == body;
    assert s[i] == q && s[i + 1 + |body|] == q;
    ThroughString(s, i + 1, q, body);
  }

  lemma ThroughBlockComment(s: string, i: nat, body: string)
    requires NoClose(body) && At(s, i, "/*" + body + "*/")
    ensures Scan(s, i, Normal) == Scan(s, i + |body| + 4, Normal)
  {
    CharsAt(s, i, "/*" + body + "*/");
    BlockChars(s, i + 2, body);
    ThroughBlock(s, i + 2, i + 2 + |body|);
  }

  lemma ThroughLineComment(s: string, i: nat, body: string)
    requires '\n' !in body
    ensures At(s, i, "--" + body + "\n") ==> Scan(s, i, Normal) == Scan(s, i + |body| + 3, Normal)
    ensures At(s, i, "#" + body + "\n") ==> Scan(s, i, Normal) == Scan(s, i + |body| + 2, Normal)
  {
    if At(s, i, "--" + body + "\n") {
      CharsAt(s, i, "--" + body + "\n");
      ThroughLine(s, i + 2, i + 2 + |body|, LineComment);
    }
    if At(s, i, "#" + body + "\n") {
      CharsAt(s, i, "#" + body + "\n");
      ThroughLine(s, i + 1, i + 1 + |body|, HashComment);
    }
  }

  /** A token other than a semicolon is stepped over. */
  lemma ThroughToken(s: string, i: nat, t: Token, rest: string)
    requires At(s, i, PrintToken(t)) && s[i + |PrintToken(t)|..] == rest && ValidToken(t, rest) && !t.Semi?
    ensures Scan(s, i, Normal) == Scan(s, i + |PrintToken(t)|, Normal)
  {
    var end := i + |PrintToken(t)|;
    assert end < |s| ==> rest != [] && rest[0] == s[end];
    match t
    case Plain(c) =>
      CharsAt(s, i, [c]);
    case Quoted(q, body) =>
      hide Scan, QuotedBody, At;
      ThroughQuoted(s, i, q, body);
    case Block(body) =>
      hide Scan, NoClose, At;
      ThroughBlockComment(s, i, body);
    case Line(body) =>
      hide Scan, At;
      ThroughLineComment(s, i, body);
    case Hash(body) =>
      hide Scan, At;
      ThroughLineComment(s, i, body);
  }

  lemma BlockChars(s: string, i: nat, body: string)
    requires NoClose(body) && i + |body| + 1 < |s| && s[i + |body|] == '*'
    requires forall k :: i <= k < i + |body| ==> s[k] == body[k - i]
    ensures forall k :: i <= k < i + |body| && s[k] == '*' ==> s[k + 1] != '/'
  {
  }

  lemma ThroughTail(s: string, i: nat, tail: Tail)
    requires i <= |s| && s[i..] == PrintTail(tail) && ValidTail(tail)
    ensures !Scan(s, i, Normal)
  {
    var p := PrintTail(tail);
    assert s[i..i + |p|] == s[i..];
    CharsAt(s, i, p);
    hide OpenBody;
    match tail
    case Whole =>
    case OpenQuote(q, body) =>
      assert s[i] == q;
      assert s[i + 1..i + 1 + |body|] == p[1..] == body;
      OpenStringEnds(s, i + 1, q, body);
    case OpenBlock(body) =>
      assert forall k :: i + 2 <= k < |s| ==> s[k] == body[k - i - 2];
      forall k | i + 2 <= k < |s| - 1 && s[k] == '*' ensures s[k + 1] != '/' {
        assert body[k - i - 2] == '*' && s[k + 1] == body[k + 1 - i - 2];
      }
      OpenBlockEnds(s, i + 2);
    case OpenLine(body) =>
      assert forall k :: i + 2 <= k < |s| ==> s[k] == body[k - i - 2];
      OpenLineEnds(s, i + 2, LineComment);
    case OpenHash(body) =>
      assert forall k :: i + 1 <= k < |s| ==> s[k] == body[k - i - 1];
      OpenLineEnds(s, i + 1, HashComment);
  }

  lemma {:induction false} ScanAgreesFrom(s: string, i: nat, ts: seq<Token>, tail: Tail)
    requires i <= |s| && s[i..] == Print(ts, tail) && ValidText(ts, tail)
    ensures Scan(s, i, Normal) == MultiStatement(ts, tail)
    decreases |ts|
  {
    hide ValidToken, PrintTail, PrintToken, AllSpace, Scan, At;
    if ts == [] {
      ThroughTail(s, i, tail);
    } else {
      var p, rest := PrintToken(ts[0]), Print(ts[1..], tail);
      SuffixSplit(s, i, p, rest);
      if ts[0].Semi? {
        AtSemicolon(s, i);
      } else {
        ThroughToken(s, i, ts[0], rest);
        ScanAgreesFrom(s, i + |p|, ts[1..], tail);
      }
    }
  }

  lemma SuffixSplit(s: string, i: nat, p: string, rest: string)
    requires i <= |s| && s[i..] == p + rest
    ensures At(s, i, p) && s[i + |p|..] == rest
  {
  }

  lemma AtSemicolon(s: string, i: nat)
    requires At(s, i, PrintToken(Semi))
    ensures |PrintToken(Semi)| == 1 && Scan(s, i, Normal) == !AllSpace(s[i + 1..])
  {
  }

  /** On every tokenized text the scanner answers as the token-level specification does. */
  lemma ScanAgrees(ts: seq<Token>, tail: Tail)
    requires ValidText(ts, tail)
    ensures Scan(Print(ts, tail), 0, Normal) == MultiStatement(ts, tail)
  {
    var s := Print(ts, tail);
    assert s[0..] == s;
    ScanAgreesFrom(s, 0, ts, tail);
  }

  // ------------------------------------------------------------------ coverage

  lemma OpenEnds(q: char, s: string)
    requires s == [] || s == "\\"
    ensures OpenBody(q, s)
  {
  }

  lemma QuotedEnds(q: char)
    ensures QuotedBody(q, "")
  {
  }

  /** One character of string content, or one escape. */
  predicate Unit(q: char, u: string) {
    (|u| == 1 && u[0] != '\\' && u[0] != q) || (|u| == 2 && (u[0] == '\\' || (u[0] == q && u[1] == q)))
  }

  lemma QuotedStep(q: char, u: string, more: string)
    requires Unit(q, u) && QuotedBody(q, more)
    ensures QuotedBody(q, u + more)
  {
    assert (u + more)[|u|..] == more;
  }

  lemma OpenStep(q: char, s: string, n: nat)
    requires n <= |s| && Unit(q, s[..n]) && OpenBody(q, s[n..])
    ensures OpenBody(q, s)
  {
    assert forall k :: 0 <= k < n ==> s[..n][k] == s[k];
  }

  /** Text behind an opening quote is a closed string and a rest, or one open string. */
  lemma {:induction false} SplitString(q: char, s: string) returns (closed: bool, body: string, rest: string)
    requires IsQuote(q)
    ensures closed ==> s == body + [q] + rest && QuotedBody(q, body) && !StartsWith(rest, q)
    ensures !closed ==> OpenBody(q, s)
    decreases |s|
  {
    hide QuotedBody, OpenBody;
    if s == [] || s == "\\" {
      OpenEnds(q, s);
      return false, "", "";
    }
    if s[0] == q && !StartsWith(s[1..], q) {
      QuotedEnds(q);
      assert s == [] + [q] + s[1..];
      return true, "", s[1..];
    }
    var n := if s[0] == '\\' || s[0] == q then 2 else 1;
    var more;
    closed, more, rest := SplitString(q, s[n..]);
    body := s[..n] + more;
    assert s == s[..n] + s[n..];
    if closed {
      QuotedStep(q, s[..n], more);
      assert s[..n] + (more + [q] + rest) == body + [q] + rest;
    } else {
      OpenStep(q, s, n);
    }
  }

  lemma {:induction false} SplitBlock(s: string) returns (closed: bool, body: string, rest: string)
    ensures closed ==> s == body + "*/" + rest && NoClose(body)
    ensures !closed ==> NoClose(s)
    decreases |s|
  {
    if |s| < 2 {
      return false, "", "";
    }
    if s[0] == '*' && s[1] == '/' {
      assert s == "" + "*/" + s[2..];
      return true, "", s[2..];
    }
    var more;
    closed, more, rest := SplitBlock(s[1..]);
    body := s[..1] + more;
    assert s == s[..1] + s[1..];
    if closed {
      assert more != [] ==> s[1] == more[0];
      assert forall i :: 0 < i < |body| ==> body[i] == more[i - 1];
    } else {
      assert forall i :: 0 < i < |s| ==> s[i] == s[1..][i - 1];
    }
  }

  lemma {:induction false} SplitLine(s: string) returns (closed: bool, body: string, rest: string)
    ensures closed ==> s == body + "\n" + rest && '\n' !in body
    ensures !closed ==> '\n' !in s
    decreases |s|
  {
    if s == [] {
      return false, "", "";
    }
    if s[0] == '\n' {
      return true, "", s[1..];
    }
    closed, body, rest := SplitLine(s[1..]);
    body := s[..1] + body;
    assert s == s[..1] + s[1..];
  }

  /** The first token of a text, unless only an open tail is left. */
  lemma FirstToken(s: string) returns (whole: bool, t: Token, rest: string, tail: Tail)
    requires s != []
    ensures whole ==> s == PrintToken(t) + rest && ValidToken(t, rest)
    ensures !whole ==> s == PrintTail(tail) && ValidTail(tail)
  {
    t, rest, tail := Semi, "", Whole;
    var c := s[0];
    assert s == [c] + s[1..];
    var body;
    if IsQuote(c) {
      whole, body, rest := SplitString(c, s[1..]);
      t, tail := Quoted(c, body), OpenQuote(c, s[1..]);
      assert whole ==> s == [c] + body + [c] + rest;
    } else if c == '/' && StartsWith(s[1..], '*') {
      whole, body, rest := SplitBlock(s[2..]);
      t, tail := Block(body), OpenBlock(s[2..]);
      assert s == "/*" + s[2..];
      assert whole ==> s == "/*" + body + "*/" + rest;
    } else if c == '-' && StartsWith(s[1..], '-') {
      whole, body, rest := SplitLine(s[2..]);
      t, tail := Line(body), OpenLine(s[2..]);
      assert s == "--" + s[2..];
      assert whole ==> s == "--" + body + "\n" + rest;
    } else if c == '#' {
      whole, body, rest := SplitLine(s[1..]);
      t, tail := Hash(body), OpenHash(s[1..]);
      assert whole ==> s == "#" + body + "\n" + rest;
    } else {
      whole, t, rest := true, if c == ';' then Semi else Plain(c), s[1..];
    }
  }

  /** Every text has a tokenization. */
  lemma {:induction false} Tokenized(s: string) returns (ts: seq<Token>, tail: Tail)
    ensures ValidText(ts, tail) && Print(ts, tail) == s
    decreases |s|
  {
    if s == [] {
      return [], Whole;
    }
    hide ValidToken, PrintToken, PrintTail, ValidTail;
    var whole, t, rest, open := FirstToken(s);
    if !whole {
      return [], open;
    }
    var more;
    more, tail := Tokenized(rest);
    ts := [t] + more;
    assert ts[1..] == more;
  }

  /** So for every SQL text the scanner says whether it holds more than one statement. */
  lemma ScannerCorrect(s: string) returns (ts: seq<Token>, tail: Tail)
    ensures ValidText(ts, tail) && Print(ts, tail) == s
    ensures Scan(s, 0, Normal) <==> MultiStatement(ts, tail)
  {
    ts, tail := Tokenized(s);
    ScanAgrees(ts, tail);
  }

  /** Characters that open nothing are stepped over. */
  lemma {:induction false} ThroughPlain(s: string, i: nat, e: nat)
    requires i <= e <= |s| && forall k :: i <= k < e ==> s[k] !in {'\'', '"', '/', '-', '#', ';'}
    ensures Scan(s, i, Normal) == Scan(s, e, Normal)
    decreases e - i
  {
    if i < e { ThroughPlain(s, i + 1, e); }
  }

  lemma ScanEnd(s: string)
    ensures !Scan(s, |s|, Normal)
  {
  }

  /** A comment behind the semicolon counts as a second statement. */
  lemma TrailingCommentCounts()
    ensures Scan("SELECT 1; --x", 0, Normal)
  {
    var sql := "SELECT 1; --x";
    ThroughPlain(sql, 0, 8);
    assert sql[8] == ';' && sql[9..][1] == '-';
  }
}
