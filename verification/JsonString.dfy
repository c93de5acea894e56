/**
 String literals of the control socket's hand-written JSON code (`src/stats/uds_server.cpp`):
 escaping, unescaping and finding the closing quote (RFC 8259 section 7).
 */
module JsonString {
  import opened Bytes
  import opened Slices

  // ---------------------------------------------------------- closing quotes

  /** The index of the quote that closes the literal whose content starts at `i`. */
  function StringEnd(s: string, i: nat): (r: Option<nat>)
    ensures r.Some? ==> i <= r.value < |s| && s[r.value] == '"'
    decreases |s| - i
  {
    if i >= |s| then None
    else if s[i] == '\\' then StringEnd(s, i + 2)
    else if s[i] == '"' then Some(i)
    else StringEnd(s, i + 1)
  }

  /** `find_json_string_end` */
  method FindJsonStringEnd(json: string, start: nat) returns (r: Option<nat>)
    ensures r == if start < |json| && json[start] == '"' then StringEnd(json, start + 1) else None
  {
    if start >= |json| || json[start] != '"' {
      return None;
    }
    var escaped := false;
    var i := start + 1;
    while i < |json|
      invariant start < i <= |json|
      invariant StringEnd(json, start + 1) == StringEnd(json, if escaped then i + 1 else i)
    {
      var c := json[i];
      if escaped {
        escaped := false;
      } else if c == '\\' {
        escaped := true;
      } else if c == '"' {
        return Some(i);
      }
      i := i + 1;
    }
    return None;
  }

  /** Literal content: backslashes come in pairs with the next character, and no other quote occurs. */
  predicate RawContent(raw: string) {
    if raw == [] then true
    else if raw[0] == '\\' then |raw| >= 2 && RawContent(raw[2..])
    else raw[0] != '"' && RawContent(raw[1..])
  }

  /** The scanner stops exactly at the quote behind the content, wherever the literal stands. */
  lemma {:induction false} ClosingQuoteFound(s: string, i: nat, raw: string)
    requires RawContent(raw) && At(s, i, raw) && i + |raw| < |s| && s[i + |raw|] == '"'
    ensures StringEnd(s, i) == Some(i + |raw|)
    decreases |raw|
  {
    if raw != [] {
      assert s[i] == s[i..i + |raw|][0];
      var n := if raw[0] == '\\' then 2 else 1;
      assert s[i + n..i + |raw|] == s[i..i + |raw|][n..] == raw[n..];
      ClosingQuoteFound(s, i + n, raw[n..]);
    }
  }

  // ---------------------------------------------------------------- escaping

  const HEX := "0123456789abcdef"

  /** The switch of `json_escape` for one character. */
  function EscapeChar(c: char): string {
    if c == '"' then "\\\""
    else if c == '\\' then "\\\\"
    else if c == '\U{8}' then "\\b"
    else if c == '\U{C}' then "\\f"
    else if c == '\n' then "\\n"
    else if c == '\r' then "\\r"
    else if c == '\t' then "\\t"
    else if (c as int) < 0x20 then "\\u00" + [HEX[c as int / 16], HEX[c as int % 16]]
    else [c]
  }

  function Escaped(s: string): string {
    if s == [] then [] else EscapeChar(s[0]) + Escaped(s[1..])
  }

  /** `json_escape` */
  method JsonEscape(sv: string) returns (out: string)
    ensures out == Escaped(sv)
  {
    hide Escaped, EscapeChar, EscapedTo;
    out := [];
    var i := 0;
    EscapedEnds(sv, []);
    while i < |sv|
      invariant 0 <= i <= |sv| && EscapedTo(sv, i, out)
    {
      EscapedStep(sv, i, out);
      out := out + EscapeChar(sv[i]);
      i := i + 1;
    }
    EscapedEnds(sv, out);
  }

  /** `done` is the escape of the text up to `i`. */
  ghost predicate EscapedTo(sv: string, i: nat, done: string)
    requires i <= |sv|
  {
    Escaped(sv) == done + Escaped(sv[i..])
  }

  lemma EscapedStep(sv: string, i: nat, done: string)
    requires i < |sv| && EscapedTo(sv, i, done)
    ensures EscapedTo(sv, i + 1, done + EscapeChar(sv[i]))
  {
    hide EscapeChar;
    assert sv[i..][0] == sv[i] && sv[i..][1..] == sv[i + 1..];
    assert Escaped(sv[i..]) == EscapeChar(sv[i]) + Escaped(sv[i + 1..]);
  }

  lemma EscapedEnds(sv: string, done: string)
    ensures EscapedTo(sv, 0, [])
    ensures EscapedTo(sv, |sv|, done) ==> done == Escaped(sv)
  {
    hide EscapeChar;
    assert sv[0..] == sv;
    assert sv[|sv|..] == [] && Escaped([]) == [];
  }

  /** What the reader makes of the character behind a backslash. */
  function UnescapeChar(c: char): char {
    match c case 'n' => '\n' case 'r' => '\r' case 't' => '\t' case _ => c
  }

  function Unescaped(s: string): string
    decreases |s|
  {
    if s == [] then []
    else if s[0] == '\\' && |s| >= 2 then [UnescapeChar(s[1])] + Unescaped(s[2..])
    else [s[0]] + Unescaped(s[1..])
  }

  lemma UnescapedAt(value: string, i: nat)
    requires i < |value|
    ensures Unescaped(value[i..]) ==
      if value[i] == '\\' && i + 1 < |value| then [UnescapeChar(value[i + 1])] + Unescaped(value[i + 2..])
      else [value[i]] + Unescaped(value[i + 1..])
  {
  }

  /** `unescape_json_string` */
  method UnescapeJsonString(value: string) returns (result: string)
    ensures result == Unescaped(value)
  {
    hide Unescaped, UnescapeChar, UnescapedTo;
    result := [];
    var i := 0;
    UnescapedEnds(value, []);
    while i < |value|
      invariant 0 <= i <= |value| && UnescapedTo(value, i, result)
    {
      var c := value[i];
      UnescapedStep(value, i, result);
      if c == '\\' && i + 1 < |value| {
        i := i + 1;
        result := result + [UnescapeChar(value[i])];
      } else {
        result := result + [c];
      }
      i := i + 1;
    }
    UnescapedEnds(value, result);
  }

  /** `done` is what the text up to `i` decodes to. */
  ghost predicate UnescapedTo(value: string, i: nat, done: string)
    requires i <= |value|
  {
    Unescaped(value) == done + Unescaped(value[i..])
  }

  lemma UnescapedStep(value: string, i: nat, done: string)
    requires i < |value| && UnescapedTo(value, i, done)
    ensures if value[i] == '\\' && i + 1 < |value| then UnescapedTo(value, i + 2, done + [UnescapeChar(value[i + 1])])
      else UnescapedTo(value, i + 1, done + [value[i]])
  {
    hide Unescaped, UnescapeChar;
    UnescapedAt(value, i);
  }

  lemma UnescapedEnds(value: string, done: string)
    ensures UnescapedTo(value, 0, [])
    ensures UnescapedTo(value, |value|, done) ==> done == Unescaped(value)
  {
    hide UnescapeChar;
    assert value[0..] == value;
    assert value[|value|..] == [] && Unescaped([]) == [];
  }

  // ------------------------------------------------------------------ lemmas

  lemma {:induction false} RawAppend(a: string, b: string)
    requires RawContent(a) && RawContent(b)
    ensures RawContent(a + b)
    decreases |a|
  {
    if a == [] {
      assert a + b == b;
    } else {
      var n := if a[0] == '\\' then 2 else 1;
      assert (a + b)[n..] == a[n..] + b;
      RawAppend(a[n..], b);
    }
  }

  lemma {:induction false} PlainIsRaw(s: string)
    requires '\\' !in s && '"' !in s
    ensures RawContent(s)
  {
    if s != [] { PlainIsRaw(s[1..]); }
  }

  lemma EscapedCharRaw(c: char)
    ensures RawContent(EscapeChar(c))
  {
    var e := EscapeChar(c);
    if |e| == 2 {
      assert e[2..] == [];
    } else if |e| == 6 {
      assert e[2..] == ['0', '0', HEX[c as int / 16], HEX[c as int % 16]];
      PlainIsRaw(e[2..]);
    }
  }

  lemma {:induction false} EscapedIsRaw(s: string)
    ensures RawContent(Escaped(s))
  {
    if s != [] {
      EscapedCharRaw(s[0]);
      EscapedIsRaw(s[1..]);
      RawAppend(EscapeChar(s[0]), Escaped(s[1..]));
    }
  }

  /** An escaped string between quotes is one literal, whatever the string and whatever follows. */
  lemma EscapedLiteralEnds(s: string, rest: string)
    ensures StringEnd("\"" + Escaped(s) + "\"" + rest, 1) == Some(1 + |Escaped(s)|)
  {
    EscapedIsRaw(s);
    hide Escaped, RawContent, StringEnd;
    ClosingQuoteFound("\"" + Escaped(s) + "\"" + rest, 1, Escaped(s));
  }

  /** The control characters the reader can decode. */
  predicate Decodable(s: string) {
    forall i :: 0 <= i < |s| ==> (s[i] as int) < 0x20 ==> s[i] in {'\n', '\r', '\t'}
  }

  lemma UnescapeOne(c: char, rest: string)
    ensures Decodable([c]) ==> Unescaped(EscapeChar(c) + rest) == [c] + Unescaped(rest)
    ensures !Decodable([c]) ==> Unescaped(EscapeChar(c) + rest) != [] && Unescaped(EscapeChar(c) + rest)[0] != c
  {
    var e := EscapeChar(c);
    assert Decodable([c]) <==> ((c as int) < 0x20 ==> c in {'\n', '\r', '\t'}) by {
      assert [c][0] == c;
    }
    if |e| == 1 {
      assert (e + rest)[1..] == rest;
    } else {
      assert (e + rest)[0] == '\\' && (e + rest)[1] == e[1];
      if |e| == 2 { assert (e + rest)[2..] == rest; }
    }
  }

  /** Unescaping gives back the string exactly when its only control characters are newline, return and tab. */
  lemma {:induction false} EscapeRoundTrip(s: string)
    ensures Unescaped(Escaped(s)) == s <==> Decodable(s)
  {
    if s != [] {
      var rest := Escaped(s[1..]);
      UnescapeOne(s[0], rest);
      EscapeRoundTrip(s[1..]);
      hide EscapeChar, Unescaped, Escaped;
      assert Decodable(s) <==> Decodable([s[0]]) && Decodable(s[1..]) by {
        assert s == [s[0]] + s[1..];
      }
      EscapedCons(s);
      if Decodable([s[0]]) {
        assert s == [s[0]] + s[1..];
        assert ([s[0]] + Unescaped(rest))[1..] == Unescaped(rest);
      }
    }
  }

  lemma EscapedCons(s: string)
    requires s != []
    ensures Escaped(s) == EscapeChar(s[0]) + Escaped(s[1..])
  {
  }

  predicate HexDigit(d: char, n: nat) {
    if n < 10 then d as int == '0' as int + n else n < 16 && d as int == 'a' as int + n - 10
  }

  /** A control character without a short escape is written as its code in four hexadecimal digits. */
  lemma ControlEscaped(c: char)
    requires (c as int) < 0x20 && c as int !in {8, 9, 10, 12, 13}
    ensures var e := EscapeChar(c);
      |e| == 6 && e[..4] == "\\u00" && HexDigit(e[4], c as int / 16) && HexDigit(e[5], c as int % 16)
  {
  }
}
