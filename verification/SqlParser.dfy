/**
 The SQL parser's front end (`src/parser/sql_parser.cpp`): comment removal, the first keyword and the
 command it stands for. Table extraction, done by regular expressions, is a parameter.
 */
module SqlParser {
  import opened Slices
  import opened Text
  import opened SqlScanner
  import Policy
  import PolicyText

  // ---------------------------------------------------------------- comment removal

  /** Behind the `*` `/` that closes a block comment; an unclosed one is left before its last character. */
  function BlockEnd(s: string, i: nat): (e: nat)
    requires i <= |s|
    ensures i <= e <= |s|
    decreases |s| - i
  {
    if i + 1 >= |s| then i else if s[i] == '*' && s[i + 1] == '/' then i + 2 else BlockEnd(s, i + 1)
  }

  predicate OpensBlock(s: string, i: nat) {
    i + 1 < |s| && s[i] == '/' && s[i + 1] == '*'
  }

  predicate OpensLine(s: string, i: nat) {
    (i + 1 < |s| && s[i] == '-' && s[i + 1] == '-') || (i < |s| && s[i] == '#')
  }

  /** The text from `i` on without comments. */
  function Strip(s: string, i: nat): string
    requires i <= |s|
    decreases |s| - i
  {
    if i == |s| then ""
    else if OpensBlock(s, i) then " " + Strip(s, BlockEnd(s, i + 2))
    else if OpensLine(s, i) then LineEndMoves(s, i); Strip(s, Find(s, '\n', i))
    else [s[i]] + Strip(s, i + 1)
  }

  lemma LineEndMoves(s: string, i: nat)
    requires i <= |s| && OpensLine(s, i)
    ensures Find(s, '\n', i) > i
  {
  }

  lemma StripStep(s: string, i: nat)
    requires i < |s|
    ensures OpensBlock(s, i) ==> Strip(s, i) == " " + Strip(s, BlockEnd(s, i + 2))
    ensures !OpensBlock(s, i) && OpensLine(s, i) ==> Strip(s, i) == Strip(s, Find(s, '\n', i))
    ensures !OpensBlock(s, i) && !OpensLine(s, i) ==> Strip(s, i) == [s[i]] + Strip(s, i + 1)
  {
  }

  lemma StripNothing(s: string)
    ensures Strip(s, |s|) == ""
  {
  }

  /** What is done and what is left make up the whole. */
  ghost predicate Stripped(s: string, result: string, i: nat)
    requires i <= |s|
  {
    result + Strip(s, i) == Strip(s, 0)
  }

  lemma StrippedStep(s: string, result: string, i: nat, add: string, e: nat)
    requires i <= |s| && e <= |s| && Stripped(s, result, i) && Strip(s, i) == add + Strip(s, e)
    ensures Stripped(s, result + add, e)
  {
  }

  /** `remove_comments` */
  method RemoveComments(sql: string) returns (result: string)
    ensures result == Strip(sql, 0)
  {
    hide Strip, Stripped, Find;
    result := "";
    var i := 0;
    var len := |sql|;
    StrippedStart(sql);
    while i < len
      invariant 0 <= i <= len && Stripped(sql, result, i)
      decreases len - i
    {
      StripStep(sql, i);
      if i + 1 < len && sql[i] == '/' && sql[i + 1] == '*' {
        ghost var start := i;
        i := i + 2;
        while i + 1 < len
          invariant start + 2 <= i <= len && BlockEnd(sql, i) == BlockEnd(sql, start + 2)
          decreases len - i
        {
          if sql[i] == '*' && sql[i + 1] == '/' {
            i := i + 2;
            break;
          }
          i := i + 1;
        }
        StrippedStep(sql, result, start, " ", i);
        result := result + [' '];
      } else if (i + 1 < len && sql[i] == '-' && sql[i + 1] == '-') || sql[i] == '#' {
        ghost var start := i;
        while i < len && sql[i] != '\n'
          invariant start <= i <= len && forall k :: start <= k < i ==> sql[k] != '\n'
        {
          i := i + 1;
        }
        assert i == Find(sql, '\n', start) && i > start;
        StrippedStep(sql, result, start, "", i);
        assert result + "" == result;
      } else {
        StrippedStep(sql, result, i, [sql[i]], i + 1);
        result := result + [sql[i]];
        i := i + 1;
      }
    }
    StrippedAll(sql, result);
  }

  lemma StrippedStart(s: string)
    ensures Stripped(s, "", 0)
  {
  }

  lemma StrippedAll(s: string, result: string)
    requires Stripped(s, result, |s|)
    ensures result == Strip(s, 0)
  {
  }

  // ----------------------------------------------------------------- first keyword

  function ToUpper(s: string): (r: string)
    ensures |r| == |s| && forall i :: 0 <= i < |s| ==> r[i] == Upper(s[i])
  {
    if s == "" then "" else [Upper(s[0])] + ToUpper(s[1..])
  }

  /** Behind the last index before `e` that does not hold a space. */
  function LastSolid(s: string, e: nat): (r: nat)
    requires e <= |s|
    ensures r <= e && (forall k :: r <= k < e ==> IsSpace(s[k])) && (r > 0 ==> !IsSpace(s[r - 1]))
  {
    if e > 0 && IsSpace(s[e - 1]) then LastSolid(s, e - 1) else e
  }

  /** `trim` */
  function Trim(s: string): (r: string)
    ensures r == "" <==> AllSpace(s)
  {
    var b := SkipSpaces(s, 0);
    if b == |s| then ""
    else
      assert LastSolid(s, |s|) > b;
      s[b..LastSolid(s, |s|)]
  }

  predicate IsSeparator(c: char) {
    c == ' ' || c == '\t' || c == '\r' || c == '\n'
  }

  /** `find_first_of` the four separators; the length stands for `npos`. */
  function FirstSeparator(s: string, i: nat): (e: nat)
    requires i <= |s|
    ensures i <= e <= |s| && (forall k :: i <= k < e ==> !IsSeparator(s[k])) && (e < |s| ==> IsSeparator(s[e]))
    decreases |s| - i
  {
    if i < |s| && !IsSeparator(s[i]) then FirstSeparator(s, i + 1) else i
  }

  /** `extract_first_keyword` */
  function FirstKeyword(s: string): string {
    var t := Trim(s);
    t[..FirstSeparator(t, 0)]
  }

  /** `keyword_to_command` */
  function KeywordToCommand(word: string): Policy.Command {
    if word == "SELECT" then Policy.Select
    else if word == "INSERT" then Policy.Insert
    else if word == "UPDATE" then Policy.Update
    else if word == "DELETE" then Policy.Delete
    else if word == "DROP" then Policy.Drop
    else if word == "TRUNCATE" then Policy.Truncate
    else if word == "ALTER" then Policy.Alter
    else if word == "CREATE" then Policy.Create
    else if word == "CALL" then Policy.Call
    else if word == "PREPARE" then Policy.Prepare
    else if word == "EXECUTE" then Policy.Execute
    else Policy.Unknown
  }

  datatype Parsed = Parsed(query: Policy.Query) | ParseError(message: string)

  /** Table extraction: the names found in the normalized text of a command. */
  type Tables = (Policy.Command, string) -> seq<string>

  const MULTI := "Multi-statement SQL detected: semicolon outside string or comment"

  /** Nothing but whitespace, more than one statement, or nothing but comments. */
  predicate Rejected(sql: string) {
    AllSpace(sql) || Scan(sql, 0, Normal) || AllSpace(Strip(sql, 0))
  }

  function ErrorText(sql: string): string {
    if AllSpace(sql) then "Empty SQL input"
    else if Scan(sql, 0, Normal) then MULTI
    else "SQL is empty after comment removal"
  }

  function CommandIn(sql: string): Policy.Command {
    KeywordToCommand(FirstKeyword(ToUpper(Strip(sql, 0))))
  }

  function QueryOf(sql: string, tables: Tables): Policy.Query {
    Policy.Query(CommandIn(sql), tables(CommandIn(sql), Trim(ToUpper(Strip(sql, 0)))), sql)
  }

  /** `SqlParser::parse` */
  method Parse(sql: string, tables: Tables) returns (r: Parsed)
    ensures r == if Rejected(sql) then ParseError(ErrorText(sql)) else Parsed(QueryOf(sql, tables))
  {
    hide Scan, Strip, KeywordToCommand, FirstSeparator;
    if Trim(sql) == "" {
      return ParseError("Empty SQL input");
    }
    var multi := HasSemicolonOutsideStringOrComment(sql);
    if multi {
      return ParseError(MULTI);
    }
    var bare := RemoveComments(sql);
    var normalized := ToUpper(bare);
    UpperSpaces(bare);
    var trimmed := Trim(normalized);
    if trimmed == "" {
      return ParseError("SQL is empty after comment removal");
    }
    TrimTwice(normalized);
    var command := KeywordToCommand(FirstKeyword(trimmed));
    return Parsed(Policy.Query(command, tables(command, trimmed), sql));
  }

  lemma UpperSpaces(s: string)
    ensures AllSpace(ToUpper(s)) <==> AllSpace(s)
  {
  }

  lemma TrimTwice(s: string)
    ensures Trim(Trim(s)) == Trim(s)
  {
    var t := Trim(s);
    if t != "" {
      assert !IsSpace(t[0]) && !IsSpace(t[|t| - 1]);
      assert SkipSpaces(t, 0) == 0 && LastSolid(t, |t|) == |t|;
    }
  }

  // ------------------------------------------------------- what comment removal does

  /** A piece of text for comment removal, which does not know strings: a comment, or any other character. */
  predicate IsPiece(t: Token, rest: string) {
    match t
    case Plain(c) => c != '#' && (c == '/' ==> !StartsWith(rest, '*')) && (c == '-' ==> !StartsWith(rest, '-'))
    case Block(body) => NoClose(body)
    case Line(body) => '\n' !in body
    case Hash(body) => '\n' !in body
    case _ => false
  }

  predicate IsPieces(ts: seq<Token>, tail: Tail) {
    if ts == [] then !tail.OpenQuote? && ValidTail(tail)
    else IsPiece(ts[0], Print(ts[1..], tail)) && IsPieces(ts[1..], tail)
  }

  /** A block comment leaves a blank, a comment to the end of the line leaves the line break. */
  function Bare(t: Token): string {
    match t
    case Plain(c) => [c]
    case Block(_) => " "
    case Line(_) => "\n"
    case Hash(_) => "\n"
    case _ => ""
  }

  /** A block comment that is never closed leaves its last character, unless that opens a comment. */
  function BareTail(tail: Tail): string {
    match tail
    case OpenBlock(body) => " " + (if body == "" || body[|body| - 1] == '#' then "" else [body[|body| - 1]])
    case _ => ""
  }

  function BareText(ts: seq<Token>, tail: Tail): string {
    if ts == [] then BareTail(tail) else Bare(ts[0]) + BareText(ts[1..], tail)
  }

  lemma {:induction false} BlockEndFound(s: string, i: nat, end: nat)
    requires i <= end && end + 1 < |s| && s[end] == '*' && s[end + 1] == '/'
    requires forall k :: i <= k < end && s[k] == '*' ==> s[k + 1] != '/'
    ensures BlockEnd(s, i) == end + 2
    decreases end - i
  {
    if i < end { BlockEndFound(s, i + 1, end); }
  }

  lemma {:induction false} BlockNeverEnds(s: string, i: nat)
    requires i < |s| && forall k :: i <= k < |s| - 1 && s[k] == '*' ==> s[k + 1] != '/'
    ensures BlockEnd(s, i) == |s| - 1
    decreases |s| - i
  {
    if i + 1 < |s| { BlockNeverEnds(s, i + 1); }
  }

  /** Comments to the end of the line are dropped up to the line break. */
  lemma StripLine(s: string, i: nat, end: nat)
    requires i <= end < |s| && OpensLine(s, i) && !OpensBlock(s, i)
    requires s[end] == '\n' && forall k :: i <= k < end ==> s[k] != '\n'
    ensures Strip(s, i) == "\n" + Strip(s, end + 1)
  {
  }

  /** Each piece is replaced by what it leaves, and the rest is stripped by itself. */
  lemma StripPiece(s: string, i: nat, t: Token, rest: string)
    requires At(s, i, PrintToken(t)) && s[i + |PrintToken(t)|..] == rest && IsPiece(t, rest)
    ensures Strip(s, i) == Bare(t) + Strip(s, i + |PrintToken(t)|)
  {
    hide Strip, Find, BlockEnd;
    var end := i + |PrintToken(t)|;
    CharsAt(s, i, PrintToken(t));
    StripStep(s, i);
    assert end < |s| ==> rest != [] && rest[0] == s[end];
    match t
    case Plain(c) =>
      assert !OpensBlock(s, i) && !OpensLine(s, i);
    case Block(body) =>
      BlockChars(s, i + 2, body);
      BlockEndFound(s, i + 2, i + 2 + |body|);
    case Line(body) =>
      StripLine(s, i, i + 2 + |body|);
    case Hash(body) =>
      StripLine(s, i, i + 1 + |body|);
  }

  lemma StripOpenBlock(s: string, i: nat, body: string)
    requires i <= |s| && s[i..] == "/*" + body && NoClose(body)
    ensures Strip(s, i) == BareTail(OpenBlock(body))
  {
    hide Strip;
    var p := "/*" + body;
    assert s[i..i + |p|] == p;
    CharsAt(s, i, p);
    StripStep(s, i);
    if body == "" {
      StripNothing(s);
    } else {
      assert forall k :: i + 2 <= k < |s| ==> s[k] == body[k - i - 2];
      forall k | i + 2 <= k < |s| - 1 && s[k] == '*' ensures s[k + 1] != '/' {
        assert s[k + 1] == body[k + 1 - i - 2];
      }
      BlockNeverEnds(s, i + 2);
      LastCharacter(s);
    }
  }

  lemma StripOpenLine(s: string, i: nat)
    requires i < |s| && OpensLine(s, i) && forall k :: i <= k < |s| ==> s[k] != '\n'
    ensures Strip(s, i) == ""
  {
  }

  lemma StripTail(s: string, i: nat, tail: Tail)
    requires i <= |s| && s[i..] == PrintTail(tail) && !tail.OpenQuote? && ValidTail(tail)
    ensures Strip(s, i) == BareTail(tail)
  {
    hide Strip, NoClose;
    assert s[i..i + |PrintTail(tail)|] == s[i..];
    match tail
    case Whole =>
      StripNothing(s);
    case OpenBlock(body) =>
      StripOpenBlock(s, i, body);
    case OpenLine(body) =>
      CharsAt(s, i, "--" + body);
      StripOpenLine(s, i);
    case OpenHash(body) =>
      CharsAt(s, i, "#" + body);
      StripOpenLine(s, i);
  }

  lemma LastCharacter(s: string)
    requires s != ""
    ensures Strip(s, |s| - 1) == if s[|s| - 1] == '#' then "" else [s[|s| - 1]]
  {
  }

  lemma {:induction false} StripFrom(s: string, i: nat, ts: seq<Token>, tail: Tail)
    requires i <= |s| && s[i..] == Print(ts, tail) && IsPieces(ts, tail)
    ensures Strip(s, i) == BareText(ts, tail)
    decreases |ts|
  {
    hide Strip, PrintToken, PrintTail, IsPiece, ValidTail, Bare, BareTail, At;
    if ts == [] {
      StripTail(s, i, tail);
    } else {
      var rest := Print(ts[1..], tail);
      SuffixSplit(s, i, PrintToken(ts[0]), rest);
      StripPiece(s, i, ts[0], rest);
      StripFrom(s, i + |PrintToken(ts[0])|, ts[1..], tail);
    }
  }

  lemma FirstPiece(s: string) returns (whole: bool, t: Token, rest: string, tail: Tail)
    requires s != []
    ensures whole ==> s == PrintToken(t) + rest && IsPiece(t, rest)
    ensures !whole ==> s == PrintTail(tail) && !tail.OpenQuote? && ValidTail(tail)
  {
    if IsQuote(s[0]) || s[0] == ';' {
      whole, t, rest, tail := true, Plain(s[0]), s[1..], Whole;
    } else {
      whole, t, rest, tail := FirstToken(s);
      assert whole ==> PrintToken(t)[0] == s[0];
      assert !whole ==> PrintTail(tail)[0] == s[0];
    }
  }

  /** Comment removal, on every text: the text falls into comments and other characters, and the result is what
      those leave, in order. */
  lemma {:induction false} StripExact(s: string) returns (ts: seq<Token>, tail: Tail)
    ensures IsPieces(ts, tail) && Print(ts, tail) == s && Strip(s, 0) == BareText(ts, tail)
  {
    ts, tail := Pieces(s);
    assert s[0..] == s;
    StripFrom(s, 0, ts, tail);
  }

  lemma {:induction false} Pieces(s: string) returns (ts: seq<Token>, tail: Tail)
    ensures IsPieces(ts, tail) && Print(ts, tail) == s
    decreases |s|
  {
    if s == [] {
      return [], Whole;
    }
    hide IsPiece, PrintToken, PrintTail, ValidTail;
    var whole, t, rest, open := FirstPiece(s);
    if !whole {
      return [], open;
    }
    var more;
    more, tail := Pieces(rest);
    ts := [t] + more;
    assert ts[1..] == more;
  }

  // ---------------------------------------------------------------- classification

  /** Whitespace and comments. */
  predicate IsGap(t: Token) {
    match t
    case Plain(c) => IsSpace(c)
    case _ => IsPiece(t, "")
  }

  predicate AreGaps(ts: seq<Token>) {
    forall i :: 0 <= i < |ts| ==> IsGap(ts[i])
  }

  /** No comment opens anywhere in the text. */
  predicate Quiet(t: string) {
    forall k :: 0 <= k < |t| ==> !OpensBlock(t, k) && !OpensLine(t, k)
  }

  /** A word: no separator and no comment in it, and no other blank at its start. */
  predicate IsWord(w: string) {
    w != "" && Quiet(w) && !IsSpace(w[0]) && forall i :: 0 <= i < |w| ==> !IsSeparator(w[i])
  }

  /** The keyword a first word gives: blanks at its end count unless nothing but blanks follows. */
  function Keyword(w: string, last: bool): string {
    if last then w[..LastSolid(w, |w|)] else w
  }

  /** What may follow the first word: nothing, a separator or a comment. */
  predicate EndsWord(w: string, rest: string) {
    && (rest == "" || IsSeparator(rest[0]) || OpensBlock(rest, 0) || OpensLine(rest, 0))
    && (w != "" && w[|w| - 1] == '-' ==> !StartsWith(rest, '-'))
  }

  /** Gaps leave only blanks. */
  lemma {:induction false} StripGaps(s: string, i: nat, ts: seq<Token>, rest: string) returns (blank: string)
    requires i <= |s| && s[i..] == Print(ts, Whole) + rest && AreGaps(ts)
    ensures i + |Print(ts, Whole)| <= |s| && Strip(s, i) == blank + Strip(s, i + |Print(ts, Whole)|) && AllSpace(blank)
    decreases |ts|
  {
    hide Strip, PrintToken, At, IsGap, AllSpace, IsPiece, Bare;
    if ts == [] {
      blank := "";
      NoSpace();
    } else {
      var p, more := PrintToken(ts[0]), Print(ts[1..], Whole);
      assert s[i..] == p + (more + rest);
      SuffixSplit(s, i, p, more + rest);
      StripGap(s, i, ts[0], more + rest);
      var tail := StripGaps(s, i + |p|, ts[1..], rest);
      blank := Bare(ts[0]) + tail;
      SpacesJoin(Bare(ts[0]), tail);
      assert Strip(s, i) == blank + Strip(s, i + |p| + |more|);
    }
  }

  lemma StripGap(s: string, i: nat, t: Token, rest: string)
    requires At(s, i, PrintToken(t)) && s[i + |PrintToken(t)|..] == rest && IsGap(t)
    ensures Strip(s, i) == Bare(t) + Strip(s, i + |PrintToken(t)|) && AllSpace(Bare(t))
  {
    hide Strip, At, PrintToken;
    StripPiece(s, i, t, rest);
  }

  lemma NoSpace()
    ensures AllSpace("")
  {
  }

  lemma SpacesJoin(a: string, b: string)
    requires AllSpace(a)
    ensures AllSpace(a + b) <==> AllSpace(b)
  {
    assert forall k :: 0 <= k < |b| ==> (a + b)[|a| + k] == b[k];
  }

  /** Text in which no comment opens stays as it is. */
  lemma {:induction false} StripQuiet(s: string, i: nat, e: nat)
    requires i <= e <= |s| && forall k :: i <= k < e ==> !OpensBlock(s, k) && !OpensLine(s, k)
    ensures Strip(s, i) == s[i..e] + Strip(s, e)
    decreases e - i
  {
    hide Strip, OpensBlock, OpensLine;
    if i < e {
      StripQuiet(s, i + 1, e);
      StripStep(s, i);
      Prepend(s, i, e, Strip(s, e));
    } else {
      assert s[i..e] == "";
    }
  }

  lemma Prepend(s: string, i: nat, e: nat, tail: string)
    requires i < e <= |s|
    ensures [s[i]] + (s[i + 1..e] + tail) == s[i..e] + tail
  {
  }

  lemma StripRest(s: string, i: nat, w: string)
    requires i <= |s| && EndsWord(w, s[i..])
    ensures Strip(s, i) == "" || IsSeparator(Strip(s, i)[0])
  {
  }

  lemma UpperKeeps(c: char)
    ensures IsSpace(Upper(c)) == IsSpace(c) && IsSeparator(Upper(c)) == IsSeparator(c)
  {
  }

  predicate BlankFrom(n: string, e: nat) {
    forall k :: e <= k < |n| ==> IsSpace(n[k])
  }

  /** The first keyword of a text that starts with blanks and a word. */
  lemma KeywordOf(n: string, b: nat, e: nat)
    requires b < e <= |n| && !IsSpace(n[b]) && (e < |n| ==> IsSeparator(n[e]))
    requires (forall k :: 0 <= k < b ==> IsSpace(n[k])) && (forall k :: b <= k < e ==> !IsSeparator(n[k]))
    ensures LastSolid(n, e) > b
    ensures FirstKeyword(n) == n[b..if BlankFrom(n, e) then LastSolid(n, e) else e]
  {
    hide IsSpace, IsSeparator, Trim, FirstSeparator, LastSolid;
    var l := TrimmedTo(n, b, e);
    var t := Trim(n);
    var end := if l <= e then l else e;
    forall k | 0 <= k < end - b ensures !IsSeparator(t[k]) {
      assert t[k] == n[b + k];
    }
    assert e < l ==> t[e - b] == n[e];
    assert FirstSeparator(t, 0) == end - b;
  }

  lemma TrimmedTo(n: string, b: nat, e: nat) returns (l: nat)
    requires b < e <= |n| && (forall k :: 0 <= k < b ==> IsSpace(n[k])) && !IsSpace(n[b])
    ensures b < LastSolid(n, e) && b < l <= |n| && Trim(n) == n[b..l]
    ensures if BlankFrom(n, e) then l == LastSolid(n, e) else e < l
  {
    hide IsSpace, SkipSpaces, LastSolid;
    assert SkipSpaces(n, 0) == b;
    l := LastSolid(n, |n|);
    var m := LastSolid(n, e);
    assert m > 0 && !IsSpace(n[m - 1]) && !IsSpace(n[l - 1]);
    if k :| e <= k < |n| && !IsSpace(n[k]) {
      assert k < l;
    }
  }

  /** Upper case, part by part. */
  lemma UpperSlices(blank: string, word: string, rest: string)
    ensures var n := ToUpper(blank + word + rest);
      && (forall k :: 0 <= k < |blank| ==> n[k] == Upper(blank[k]))
      && (forall k :: 0 <= k < |word| ==> n[|blank| + k] == Upper(word[k]))
      && (forall k :: 0 <= k < |rest| ==> n[|blank| + |word| + k] == Upper(rest[k]))
  {
    hide ToUpper, Upper;
    var all := blank + word + rest;
    assert forall k :: 0 <= k < |blank| ==> all[k] == blank[k];
    assert forall k :: 0 <= k < |word| ==> all[|blank| + k] == word[k];
    assert forall k :: 0 <= k < |rest| ==> all[|blank| + |word| + k] == rest[k];
  }

  /** Upper case text in the shape that `KeywordOf` reads. */
  lemma UpperShape(n: string, blank: string, word: string, rest: string)
    requires AllSpace(blank) && IsWord(word) && (rest == "" || IsSeparator(rest[0]))
    requires n == ToUpper(blank + word + rest)
    ensures var b, e := |blank|, |blank| + |word|;
      && b < e <= |n| && !IsSpace(n[b]) && (e < |n| ==> IsSeparator(n[e]))
      && (forall k :: 0 <= k < b ==> IsSpace(n[k])) && (forall k :: b <= k < e ==> !IsSeparator(n[k]))
  {
    hide IsSpace, IsSeparator, Upper, ToUpper, Quiet;
    var b, e := |blank|, |blank| + |word|;
    UpperSlices(blank, word, rest);
    forall k | 0 <= k < b ensures IsSpace(n[k]) {
      UpperKeeps(blank[k]);
    }
    forall k | b <= k < e ensures !IsSeparator(n[k]) {
      assert n[b + (k - b)] == Upper(word[k - b]);
      UpperKeeps(word[k - b]);
    }
    assert n[b + 0] == Upper(word[0]) && (e < |n| ==> n[e + 0] == Upper(rest[0]));
    UpperKeeps(word[0]);
    if e < |n| {
      UpperKeeps(rest[0]);
    }
  }

  lemma UpperParts(blank: string, word: string, rest: string)
    requires AllSpace(blank) && IsWord(word) && (rest == "" || IsSeparator(rest[0]))
    ensures FirstKeyword(ToUpper(blank + word + rest)) == ToUpper(Keyword(word, AllSpace(rest)))
  {
    hide IsSpace, IsSeparator, Upper, FirstKeyword, ToUpper, Quiet, LastSolid, AllSpace, BlankFrom;
    var n := ToUpper(blank + word + rest);
    var b, e := |blank|, |blank| + |word|;
    UpperShape(n, blank, word, rest);
    KeywordOf(n, b, e);
    SameEnd(n, blank, word, rest);
    SameBlank(n, blank, word, rest);
    UpperKept(n, blank, word, rest, |Keyword(word, AllSpace(rest))|);
  }

  lemma UpperKept(n: string, blank: string, word: string, rest: string, m: nat)
    requires n == ToUpper(blank + word + rest) && m <= |word|
    ensures n[|blank|..|blank| + m] == ToUpper(word[..m])
  {
    hide ToUpper, Upper;
    UpperSlices(blank, word, rest);
    var b := |blank|;
    forall k | 0 <= k < m ensures n[b..b + m][k] == ToUpper(word[..m])[k] {
      assert n[b + k] == Upper(word[k]);
    }
  }

  lemma SameBlank(n: string, blank: string, word: string, rest: string)
    requires n == ToUpper(blank + word + rest)
    ensures AllSpace(rest) <==> BlankFrom(n, |blank| + |word|)
  {
    hide IsSpace, Upper, ToUpper;
    UpperSlices(blank, word, rest);
    var e := |blank| + |word|;
    forall k | 0 <= k < |rest| ensures IsSpace(n[e + k]) == IsSpace(rest[k]) {
      UpperKeeps(rest[k]);
    }
    forall k | e <= k < |n| ensures IsSpace(n[k]) == IsSpace(rest[k - e]) {
      assert n[e + (k - e)] == n[k];
    }
  }

  lemma SameEnd(n: string, blank: string, word: string, rest: string)
    requires n == ToUpper(blank + word + rest) && word != "" && !IsSpace(word[0])
    ensures LastSolid(n, |blank| + |word|) == |blank| + LastSolid(word, |word|)
  {
    hide IsSpace, Upper, LastSolid, ToUpper;
    UpperSlices(blank, word, rest);
    var b := |blank|;
    forall k | 0 <= k < |word| ensures IsSpace(n[b + k]) == IsSpace(word[k]) {
      UpperKeeps(word[k]);
    }
    hide *;
    EndAt(n, b, word);
  }

  lemma EndAt(n: string, b: nat, word: string)
    requires b + |word| <= |n| && word != "" && !IsSpace(word[0])
    requires forall k :: 0 <= k < |word| ==> IsSpace(n[b + k]) == IsSpace(word[k])
    ensures LastSolid(n, b + |word|) == b + LastSolid(word, |word|)
  {
    hide IsSpace, LastSolid;
    var r := LastSolid(word, |word|);
    assert r > 0 && !IsSpace(n[b + (r - 1)]);
    forall k | b + r <= k < b + |word| ensures IsSpace(n[k]) {
      assert IsSpace(word[k - b]) == IsSpace(n[b + (k - b)]);
    }
  }

  /** The command is that of the first word, whatever blanks and comments stand before it, in whatever case, and
      whatever text follows. */
  lemma ClassifiesFirstWord(lead: seq<Token>, word: string, rest: string)
    requires AreGaps(lead) && IsWord(word) && EndsWord(word, rest)
    ensures var s := Print(lead, Whole) + word + rest;
      CommandIn(s) == KeywordToCommand(ToUpper(Keyword(word, AllSpace(Strip(s, |s| - |rest|)))))
  {
    hide Strip, Print, IsWord, EndsWord, FirstKeyword, ToUpper, KeywordToCommand, AreGaps, Keyword, AllSpace;
    var gaps := Print(lead, Whole);
    var s := gaps + word + rest;
    var i, e := |gaps|, |gaps| + |word|;
    assert s[0..] == gaps + (word + rest);
    assert s[i..e] == word && s[e..] == rest;
    var blank := StripGaps(s, 0, lead, word + rest);
    WordQuiet(s, i, word);
    StripQuiet(s, i, e);
    StripRest(s, e, word);
    var end := Strip(s, e);
    assert blank + (word + end) == blank + word + end;
    UpperParts(blank, word, end);
  }

  /** A block comment that is never closed leaves its last character; that alone is no keyword. */
  lemma LoneCharacterUnknown(lead: seq<Token>, body: string)
    requires AreGaps(lead) && NoClose(body) && body != "" && body[|body| - 1] != '#' && !IsSpace(body[|body| - 1])
    ensures CommandIn(Print(lead, Whole) + ("/*" + body)) == Policy.Unknown
  {
    hide Strip, Print, FirstKeyword, ToUpper, AreGaps, NoClose, KeywordToCommand;
    var gaps, c := Print(lead, Whole), body[|body| - 1];
    var s := gaps + ("/*" + body);
    assert s[0..] == s && s[|gaps|..] == "/*" + body;
    var blank := StripGaps(s, 0, lead, "/*" + body);
    StripOpenBlock(s, |gaps|, body);
    SpacesJoin(blank, " ");
    assert Strip(s, 0) == (blank + " ") + [c] + "";
    UpperParts(blank + " ", [c], "");
    ShortUnknown(ToUpper(Keyword([c], true)));
  }

  lemma ShortUnknown(word: string)
    requires |word| <= 1
    ensures KeywordToCommand(word) == Policy.Unknown
  {
  }

  /** Where a word that starts before `i` ends. */
  function WordEnd(u: string, i: nat): (e: nat)
    requires i <= |u|
    ensures i <= e <= |u|
    ensures forall k :: i <= k < e ==> !IsSeparator(u[k]) && !OpensBlock(u, k) && !OpensLine(u, k)
    ensures e < |u| ==> IsSeparator(u[e]) || OpensBlock(u, e) || OpensLine(u, e)
    decreases |u| - i
  {
    if i == |u| || IsSeparator(u[i]) || OpensBlock(u, i) || OpensLine(u, i) then i else WordEnd(u, i + 1)
  }

  lemma WordSplit(u: string) returns (word: string, rest: string)
    requires u != "" && !IsSpace(u[0]) && !OpensBlock(u, 0) && !OpensLine(u, 0)
    ensures u == word + rest && IsWord(word) && EndsWord(word, rest)
  {
    hide WordEnd;
    var e := WordEnd(u, 1);
    word, rest := u[..e], u[e..];
    forall k | 0 <= k < e ensures !OpensBlock(word, k) && !OpensLine(word, k) && !IsSeparator(word[k]) {
      assert !OpensBlock(u, k) && !OpensLine(u, k);
    }
    assert e < |u| ==> rest[0] == u[e] && (e + 1 < |u| ==> rest[1] == u[e + 1]);
    assert !OpensLine(u, e - 1);
  }

  /** Every text that is not all blanks and comments falls into gaps, a first word and a rest, or ends in the last
      character of an unclosed block comment. */
  lemma {:induction false} SplitsAtFirstWord(s: string, i: nat)
    returns (lead: seq<Token>, word: string, rest: string, open: bool)
    requires i <= |s| && !AllSpace(Strip(s, i))
    ensures AreGaps(lead)
    ensures !open ==> s[i..] == Print(lead, Whole) + word + rest && IsWord(word) && EndsWord(word, rest)
    ensures open ==> s[i..] == Print(lead, Whole) + ("/*" + rest) && NoClose(rest)
    ensures open ==> rest != "" && rest[|rest| - 1] != '#' && !IsSpace(rest[|rest| - 1])
    decreases |s| - i
  {
    hide Strip, IsPiece, PrintToken, PrintTail, ValidTail, IsWord, EndsWord, At, Bare, BareTail, NoClose;
    NothingLeft(s);
    var u := s[i..];
    var whole, t, more, tail := FirstPiece(u);
    if !whole {
      StripTail(s, i, tail);
      rest := LeftOver(tail);
      lead, word, open := [], "", true;
      assert Print([], Whole) == "" by { NoTokens(); }
    } else if IsGap(t) {
      SuffixSplit(s, i, PrintToken(t), more);
      StripGap(s, i, t, more);
      SpacesJoin(Bare(t), Strip(s, i + |PrintToken(t)|));
      var after;
      after, word, rest, open := SplitsAtFirstWord(s, i + |PrintToken(t)|);
      lead := [t] + after;
      assert lead[1..] == after;
      assert Print(lead, Whole) == PrintToken(t) + Print(after, Whole);
    } else {
      SolidStart(u, t, more);
      word, rest := WordSplit(u);
      lead, open := [], false;
      assert Print([], Whole) == "" by { NoTokens(); }
    }
  }

  lemma NothingLeft(s: string)
    ensures AllSpace(Strip(s, |s|))
  {
  }

  lemma NoTokens()
    ensures Print([], Whole) == ""
  {
  }

  lemma SolidStart(u: string, t: Token, more: string)
    requires u == PrintToken(t) + more && IsPiece(t, more) && !IsGap(t)
    ensures u != "" && !IsSpace(u[0]) && !OpensBlock(u, 0) && !OpensLine(u, 0)
  {
    assert more != "" ==> u[1] == more[0];
  }

  lemma LeftOver(tail: Tail) returns (body: string)
    requires !tail.OpenQuote? && ValidTail(tail) && !AllSpace(BareTail(tail))
    ensures PrintTail(tail) == "/*" + body && NoClose(body)
    ensures body != "" && body[|body| - 1] != '#' && !IsSpace(body[|body| - 1])
  {
    body := tail.body;
  }

  /** No comment opens inside a word, wherever it stands. */
  lemma WordQuiet(s: string, i: nat, word: string)
    requires At(s, i, word) && IsWord(word) && EndsWord(word, s[i + |word|..])
    ensures forall k :: i <= k < i + |word| ==> !OpensBlock(s, k) && !OpensLine(s, k)
  {
    hide IsSpace, IsSeparator;
    CharsAt(s, i, word);
    var e := i + |word|;
    forall k | i <= k < e ensures !OpensBlock(s, k) && !OpensLine(s, k) {
      assert !OpensBlock(word, k - i) && !OpensLine(word, k - i);
      if k + 1 == e && e < |s| {
        assert s[e..][0] == s[e] && !OpensBlock(s, k) by { NoStar(s[e..]); }
      }
    }
  }

  lemma NoStar(rest: string)
    requires rest != "" && (IsSeparator(rest[0]) || OpensBlock(rest, 0) || OpensLine(rest, 0))
    ensures rest[0] != '*'
  {
  }

  /** Keywords and commands correspond one to one. */
  lemma KeywordRoundTrip(c: Policy.Command, word: string)
    ensures c != Policy.Unknown ==> KeywordToCommand(Policy.CommandText(c)) == c
    ensures KeywordToCommand(word) != Policy.Unknown ==> Policy.CommandText(KeywordToCommand(word)) == word
  {
  }

  // ------------------------------------------------------------ strings and comments

  /** What is left of a token if strings are kept whole, as SQL has it. */
  function Kept(t: Token): string {
    match t
    case Quoted(_, _) => PrintToken(t)
    case Semi => PrintToken(t)
    case _ => Bare(t)
  }

  function KeptTail(tail: Tail): string {
    if tail.OpenQuote? then PrintTail(tail) else BareTail(tail)
  }

  function KeptText(ts: seq<Token>, tail: Tail): string {
    if ts == [] then KeptTail(tail) else Kept(ts[0]) + KeptText(ts[1..], tail)
  }

  /** No comment opens inside a string. */
  predicate QuietStrings(ts: seq<Token>, tail: Tail) {
    if ts == [] then tail.OpenQuote? ==> Quiet(tail.body)
    else (ts[0].Quoted? ==> Quiet(ts[0].body)) && QuietStrings(ts[1..], tail)
  }

  lemma Cancel(a: string, x: string, y: string)
    ensures a + x == a + y <==> x == y
  {
    assert (a + x)[|a|..] == x && (a + y)[|a|..] == y;
  }

  /** Where a comment opens, nothing is left of the character that opens it. */
  lemma StripOpener(s: string, i: nat)
    requires i < |s| && (OpensBlock(s, i) || OpensLine(s, i))
    ensures s[i] in {'/', '-', '#'}
    ensures Strip(s, i) == "" || Strip(s, i)[0] in {' ', '\n'}
  {
    hide Strip;
    StripStep(s, i);
    if !OpensBlock(s, i) {
      LineEndMoves(s, i);
      var e := Find(s, '\n', i);
      if e == |s| {
        StripNothing(s);
      } else {
        StripStep(s, e);
      }
    }
  }

  lemma {:induction false} FirstLoud(t: string, from: nat) returns (k: nat)
    requires from <= |t| && exists j :: from <= j < |t| && (OpensBlock(t, j) || OpensLine(t, j))
    ensures from <= k < |t| && (OpensBlock(t, k) || OpensLine(t, k))
    ensures forall j :: from <= j < k ==> !OpensBlock(t, j) && !OpensLine(t, j)
    decreases |t| - from
  {
    hide OpensBlock, OpensLine;
    k := from;
    if !OpensBlock(t, from) && !OpensLine(t, from) {
      k := FirstLoud(t, from + 1);
    }
  }

  /** A quote and text behind it come out whole if no comment opens in the text, and changed otherwise. */
  lemma StripString(s: string, i: nat, q: char, body: string)
    requires IsQuote(q) && At(s, i, [q] + body) && (i + 1 + |body| < |s| ==> s[i + 1 + |body|] == q)
    ensures Quiet(body) ==> Strip(s, i) == [q] + body + Strip(s, i + 1 + |body|)
    ensures !Quiet(body) ==> !([q] + body <= Strip(s, i))
  {
    hide Strip;
    var p := [q] + body;
    var e := i + |p|;
    CharsAt(s, i, p);
    SameOpeners(s, i, q, body);
    if Quiet(body) {
      StripQuiet(s, i, e);
      assert s[i..e] == p;
    } else {
      var k := FirstLoud(body, 0);
      var at := i + 1 + k;
      assert OpensBlock(s, at) == OpensBlock(body, k) && OpensLine(s, at) == OpensLine(body, k) && s[at] == body[k];
      StripQuiet(s, i, at);
      StripOpener(s, at);
      assert Strip(s, i) == s[i..at] + Strip(s, at);
      assert p[1 + k] == s[at];
      assert Strip(s, at) != "" ==> Strip(s, i)[1 + k] == Strip(s, at)[0];
    }
  }

  lemma SameOpeners(s: string, i: nat, q: char, body: string)
    requires IsQuote(q) && i + 1 + |body| <= |s| && s[i] == q && (i + 1 + |body| < |s| ==> s[i + 1 + |body|] == q)
    requires forall k :: i + 1 <= k < i + 1 + |body| ==> s[k] == body[k - i - 1]
    ensures !OpensBlock(s, i) && !OpensLine(s, i)
    ensures forall k :: i + 1 <= k < i + 1 + |body| ==>
      OpensBlock(s, k) == OpensBlock(body, k - i - 1) && OpensLine(s, k) == OpensLine(body, k - i - 1)
  {
  }

  lemma {:induction false} KeptFrom(s: string, i: nat, ts: seq<Token>, tail: Tail)
    requires i <= |s| && s[i..] == Print(ts, tail) && ValidText(ts, tail)
    ensures Strip(s, i) == KeptText(ts, tail) <==> QuietStrings(ts, tail)
    decreases |ts|
  {
    hide Strip, PrintToken, PrintTail, ValidToken, ValidTail, Kept, KeptTail, At, Quiet;
    if ts == [] {
      KeptAtTail(s, i, tail);
    } else {
      var p, rest := PrintToken(ts[0]), Print(ts[1..], tail);
      var end := i + |p|;
      SuffixSplit(s, i, p, rest);
      KeptFrom(s, end, ts[1..], tail);
      KeptToken(s, i, ts[0], rest, KeptText(ts[1..], tail));
    }
  }

  lemma PieceOf(t: Token, rest: string)
    requires ValidToken(t, rest)
    ensures !t.Quoted? ==> IsPiece(if t.Semi? then Plain(';') else t, rest)
  {
  }

  lemma KeptToken(s: string, i: nat, t: Token, rest: string, more: string)
    requires At(s, i, PrintToken(t)) && s[i + |PrintToken(t)|..] == rest && ValidToken(t, rest)
    ensures Strip(s, i) == Kept(t) + more <==>
      (t.Quoted? ==> Quiet(t.body)) && Strip(s, i + |PrintToken(t)|) == more
  {
    hide Strip, Quiet, IsPiece, QuotedBody, NoClose;
    var end := i + |PrintToken(t)|;
    PieceOf(t, rest);
    match t
    case Quoted(q, body) =>
      QuotedKept(s, i, q, body, more);
    case Semi =>
      StripPiece(s, i, Plain(';'), rest);
      Cancel(";", Strip(s, end), more);
    case _ =>
      StripPiece(s, i, t, rest);
      Cancel(Bare(t), Strip(s, end), more);
  }

  lemma QuotedKept(s: string, i: nat, q: char, body: string, more: string)
    requires IsQuote(q) && At(s, i, [q] + body + [q])
    ensures Strip(s, i) == [q] + body + [q] + more <==> Quiet(body) && Strip(s, i + |body| + 2) == more
  {
    hide Strip, Quiet;
    var open, end := [q] + body, i + |body| + 1;
    CharsAt(s, i, open + [q]);
    assert s[i..end] == (open + [q])[..|open|] == open;
    StripString(s, i, q, body);
    if Quiet(body) {
      StripStep(s, end);
      assert Strip(s, end) == [q] + Strip(s, end + 1);
      Cancel(open, [q] + Strip(s, end + 1), [q] + more);
      Cancel([q], Strip(s, end + 1), more);
      assert open + ([q] + more) == open + [q] + more;
    } else {
      assert open <= open + [q] + more;
    }
  }

  lemma KeptAtTail(s: string, i: nat, tail: Tail)
    requires i <= |s| && s[i..] == PrintTail(tail) && ValidTail(tail)
    ensures Strip(s, i) == KeptTail(tail) <==> (tail.OpenQuote? ==> Quiet(tail.body))
  {
    hide Strip, Quiet, BareTail;
    if tail.OpenQuote? {
      assert s[i..i + 1 + |tail.body|] == s[i..];
      StripString(s, i, tail.q, tail.body);
      StripNothing(s);
    } else {
      StripTail(s, i, tail);
    }
  }

  /** Comment removal does not know strings: on every SQL text it leaves what SQL itself would leave exactly when no
      comment opens inside a string. */
  lemma StringsKeptExactly(ts: seq<Token>, tail: Tail)
    requires ValidText(ts, tail)
    ensures Strip(Print(ts, tail), 0) == KeptText(ts, tail) <==> QuietStrings(ts, tail)
  {
    hide Strip, Print, KeptText, QuietStrings, ValidText;
    var s := Print(ts, tail);
    assert s[0..] == s;
    KeptFrom(s, 0, ts, tail);
  }

  function Cut(): string {
    "SELECT '--' FROM "
  }

  /** One statement for the scanner, but for comment removal all that follows the string's dashes is a comment: whatever
      stands there, up to a line break, never shows in the tables that are looked for. */
  lemma CommentInString(u: string, tables: Tables)
    requires '\n' !in u
    ensures Strip(Cut() + u, 0) == "SELECT '" && QueryOf(Cut() + u, tables).tables == QueryOf(Cut(), tables).tables
    ensures (forall k :: 0 <= k < |u| ==> u[k] !in {'\'', '"', '/', '-', '#', ';'}) ==> !Scan(Cut() + u, 0, Normal)
  {
    hide Strip, Scan, QueryOf, Cut;
    CutShort(u);
    CutShort("");
    assert Cut() + "" == Cut();
    SameTables(Cut() + u, Cut(), tables);
    if forall k :: 0 <= k < |u| ==> u[k] !in {'\'', '"', '/', '-', '#', ';'} {
      OneStatement(u);
    }
  }

  lemma SameTables(a: string, b: string, tables: Tables)
    requires Strip(a, 0) == Strip(b, 0)
    ensures QueryOf(a, tables).tables == QueryOf(b, tables).tables
  {
    hide Strip, ToUpper, Trim, KeywordToCommand, FirstKeyword;
  }

  lemma CutChars()
    ensures |Cut()| == 17 && Cut()[0..8] == "SELECT '" && Cut()[7..11] == "'--'" && Cut()[8] == '-' && Cut()[9] == '-'
    ensures forall k :: 0 <= k < 8 ==> Cut()[k] !in {'/', '-', '#'}
    ensures forall k :: 0 <= k < 17 ==> Cut()[k] != '\n'
    ensures forall k :: 0 <= k < 7 || 11 <= k < 17 ==> Cut()[k] !in {'\'', '"', '/', '-', '#', ';'}
  {
  }

  lemma CutShort(u: string)
    requires '\n' !in u
    ensures Strip(Cut() + u, 0) == "SELECT '"
  {
    hide Strip, Cut;
    CutChars();
    var sql := Cut() + u;
    assert forall k :: 0 <= k < |Cut()| ==> sql[k] == Cut()[k];
    assert forall k :: |Cut()| <= k < |sql| ==> sql[k] == u[k - |Cut()|];
    StripQuiet(sql, 0, 8);
    StripOpenLine(sql, 8);
    assert sql[0..8] == Cut()[0..8];
  }

  lemma OneStatement(u: string)
    requires forall k :: 0 <= k < |u| ==> u[k] !in {'\'', '"', '/', '-', '#', ';'}
    ensures !Scan(Cut() + u, 0, Normal)
  {
    hide Scan, Cut;
    CutChars();
    var sql := Cut() + u;
    assert forall k :: 0 <= k < |Cut()| ==> sql[k] == Cut()[k];
    assert forall k :: |Cut()| <= k < |sql| ==> sql[k] == u[k - |Cut()|];
    assert sql[7..11] == Cut()[7..11];
    ThroughPlain(sql, 0, 7);
    ThroughQuoted(sql, 7, '\'', "--");
    ThroughPlain(sql, 11, |sql|);
    ScanEnd(sql);
  }

  // ---------------------------------------------------------------- case and layout

  lemma CaseOf(c: char, d: char)
    ensures Upper(c) == Upper(d) <==> PolicyText.SameLetter(c, d)
  {
  }

  /** Upper case forgets the case of letters, and nothing else. */
  lemma UpperMeaning(a: string, b: string)
    ensures ToUpper(a) == ToUpper(b) <==> PolicyText.IEquals(a, b)
  {
    hide Upper, ToUpper, PolicyText.SameLetter, PolicyText.IEquals;
    PolicyText.IEqualsMeaning(a, b);
    if ToUpper(a) == ToUpper(b) {
      forall i | 0 <= i < |a| ensures PolicyText.SameLetter(a[i], b[i]) {
        assert ToUpper(a)[i] == ToUpper(b)[i];
        CaseOf(a[i], b[i]);
      }
    }
    if PolicyText.SameText(a, b) {
      forall i | 0 <= i < |a| ensures ToUpper(a)[i] == ToUpper(b)[i] {
        CaseOf(a[i], b[i]);
      }
    }
  }

  /** The keywords stand in upper case already. */
  lemma KeywordsUpper(c: Policy.Command)
    ensures ToUpper(Policy.CommandText(c)) == Policy.CommandText(c)
  {
    hide ToUpper;
    assert forall i :: 0 <= i < |Policy.CommandText(c)| ==> 'A' <= Policy.CommandText(c)[i] <= 'Z';
  }

  /** A word stands for a known command exactly if it is that command's keyword in some case. */
  lemma KeywordInAnyCase(word: string, c: Policy.Command)
    requires c != Policy.Unknown
    ensures KeywordToCommand(ToUpper(word)) == c <==> PolicyText.IEquals(word, Policy.CommandText(c))
  {
    hide ToUpper, KeywordToCommand, Policy.CommandText, PolicyText.IEquals;
    UpperMeaning(word, Policy.CommandText(c));
    KeywordsUpper(c);
    KeywordRoundTrip(c, ToUpper(word));
  }

  /** A text in which no comment opens, without small letters and without blanks at its ends, is looked for tables as it
      stands. */
  lemma PlainText(sql: string, tables: Tables)
    requires sql != "" && Quiet(sql) && !IsSpace(sql[0]) && !IsSpace(sql[|sql| - 1])
    requires forall i :: 0 <= i < |sql| ==> !('a' <= sql[i] <= 'z')
    ensures QueryOf(sql, tables) == Policy.Query(CommandIn(sql), tables(CommandIn(sql), sql), sql)
  {
    hide CommandIn, Strip, ToUpper;
    StripQuiet(sql, 0, |sql|);
    StripNothing(sql);
    assert sql[0..|sql|] + "" == sql;
    assert ToUpper(sql) == sql;
    hide IsSpace, SkipSpaces, LastSolid;
    assert SkipSpaces(sql, 0) == 0 && LastSolid(sql, |sql|) == |sql|;
    assert Trim(sql) == sql[0..|sql|] == sql;
  }

  /** The eleven keywords. */
  lemma Keywords()
    ensures KeywordToCommand("SELECT") == Policy.Select && KeywordToCommand("INSERT") == Policy.Insert
    ensures KeywordToCommand("UPDATE") == Policy.Update && KeywordToCommand("DELETE") == Policy.Delete
    ensures KeywordToCommand("DROP") == Policy.Drop && KeywordToCommand("TRUNCATE") == Policy.Truncate
    ensures KeywordToCommand("ALTER") == Policy.Alter && KeywordToCommand("CREATE") == Policy.Create
    ensures KeywordToCommand("CALL") == Policy.Call && KeywordToCommand("PREPARE") == Policy.Prepare
    ensures KeywordToCommand("EXECUTE") == Policy.Execute
  {
  }
}
