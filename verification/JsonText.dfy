/**
 JSON texts as trees with their layout (RFC 8259 sections 2 to 5), and what the top-level lookups
 of `JsonScan` find in a printed tree.
 */
module JsonText {
  import opened Bytes
  import opened Slices
  import opened JsonString
  import opened JsonScan

  /** A value with the whitespace inside it; `Atom` is a number or a literal name. */
  datatype Value =
    | Str(raw: string)
    | Atom(text: string)
    | Arr(ws: string, elems: Elems)
    | Obj(ws: string, members: Members)

  datatype Elems = NoElem | Elem(pre: string, v: Value, post: string, tail: Elems)

  datatype Members =
    | NoMember
    | Member(pre: string, key: string, afterKey: string, afterColon: string, v: Value, post: string, tail: Members)

  function Print(v: Value): string {
    match v
    case Str(raw) => "\"" + raw + "\""
    case Atom(text) => text
    case Arr(ws, elems) => "[" + ws + PrintElems(elems) + "]"
    case Obj(ws, members) => "{" + ws + PrintMembers(members) + "}"
  }

  function PrintElems(e: Elems): string {
    match e
    case NoElem => ""
    case Elem(pre, v, post, tail) => pre + Print(v) + post + (if tail.NoElem? then "" else "," + PrintElems(tail))
  }

  function PrintMembers(m: Members): string {
    match m
    case NoMember => ""
    case Member(pre, key, afterKey, afterColon, v, post, tail) =>
      MemberHead(pre, key, afterKey, afterColon) + Print(v) + post
      + (if tail.NoMember? then "" else "," + PrintMembers(tail))
  }

  function Literal(raw: string): string {
    "\"" + raw + "\""
  }

  function MemberHead(pre: string, key: string, afterKey: string, afterColon: string): string {
    pre + Literal(key) + afterKey + ":" + afterColon
  }

  predicate AllWs(s: string) {
    forall i :: 0 <= i < |s| ==> IsWs(s[i])
  }

  predicate AtomChar(c: char) {
    !IsWs(c) && c !in {'"', '{', '}', '[', ']', ',', ':'}
  }

  predicate Valid(v: Value) {
    match v
    case Str(raw) => RawContent(raw)
    case Atom(text) => text != [] && forall i :: 0 <= i < |text| ==> AtomChar(text[i])
    case Arr(ws, elems) => AllWs(ws) && ValidElems(elems)
    case Obj(ws, members) => AllWs(ws) && ValidMembers(members)
  }

  predicate ValidElems(e: Elems) {
    match e
    case NoElem => true
    case Elem(pre, v, post, tail) => AllWs(pre) && Valid(v) && AllWs(post) && ValidElems(tail)
  }

  predicate ValidMembers(m: Members) {
    match m
    case NoMember => true
    case Member(pre, key, afterKey, afterColon, v, post, tail) =>
      && AllWs(pre) && RawContent(key) && AllWs(afterKey) && AllWs(afterColon)
      && Valid(v) && AllWs(post) && ValidMembers(tail)
  }

  /** The first member with that raw key, the reference for all lookups. */
  function FirstMember(m: Members, key: string): Option<Value> {
    match m
    case NoMember => None
    case Member(_, k, _, _, v, _, tail) => if k == key then Some(v) else FirstMember(tail, key)
  }

  // ----------------------------------------------------------------- positions

  lemma AtSplit(s: string, i: nat, a: string, b: string)
    requires At(s, i, a + b)
    ensures At(s, i, a) && At(s, i + |a|, b)
  {
    assert s[i..i + |a|] == (a + b)[..|a|];
    assert s[i + |a|..i + |a| + |b|] == (a + b)[|a|..];
  }

  lemma AtSplit4(s: string, i: nat, a: string, b: string, c: string, d: string)
    requires At(s, i, a + b + c + d)
    ensures At(s, i, a) && At(s, i + |a|, b) && At(s, i + |a| + |b|, c) && At(s, i + |a| + |b| + |c|, d)
  {
    hide At;
    AtSplit(s, i, a + b + c, d);
    AtSplit(s, i, a + b, c);
    AtSplit(s, i, a, b);
  }

  lemma AtChar(s: string, i: nat, a: string, k: nat)
    requires At(s, i, a) && k < |a|
    ensures s[i + k] == a[k]
  {
  }

  lemma StrAt(s: string, i: nat, raw: string)
    requires At(s, i, Literal(raw))
    ensures i + |raw| + 2 <= |s| && s[i] == '"' && At(s, i + 1, raw) && s[i + 1 + |raw|] == '"'
  {
    var t := "\"" + raw + "\"";
    AtChar(s, i, t, 0);
    AtChar(s, i, t, |raw| + 1);
    AtSplit(s, i, "\"" + raw, "\"");
    AtSplit(s, i, "\"", raw);
  }

  lemma ArrAt(s: string, i: nat, v: Value)
    requires v.Arr? && At(s, i, Print(v))
    ensures var body := i + 1 + |v.ws|;
      && s[i] == '[' && At(s, i + 1, v.ws) && At(s, body, PrintElems(v.elems))
      && |Print(v)| == 2 + |v.ws| + |PrintElems(v.elems)|
      && body + |PrintElems(v.elems)| < |s| && s[body + |PrintElems(v.elems)|] == ']'
  {
    hide PrintElems, At;
    var p := PrintElems(v.elems);
    AtSplit(s, i, "[" + v.ws + p, "]");
    AtSplit(s, i, "[" + v.ws, p);
    AtSplit(s, i, "[", v.ws);
    AtChar(s, i, "[", 0);
    AtChar(s, i + 1 + |v.ws| + |p|, "]", 0);
  }

  lemma ObjAt(s: string, i: nat, v: Value)
    requires v.Obj? && At(s, i, Print(v))
    ensures var body := i + 1 + |v.ws|;
      && s[i] == '{' && At(s, i + 1, v.ws) && At(s, body, PrintMembers(v.members))
      && |Print(v)| == 2 + |v.ws| + |PrintMembers(v.members)|
      && body + |PrintMembers(v.members)| < |s| && s[body + |PrintMembers(v.members)|] == '}'
  {
    hide PrintMembers, At;
    var p := PrintMembers(v.members);
    AtSplit(s, i, "{" + v.ws + p, "}");
    AtSplit(s, i, "{" + v.ws, p);
    AtSplit(s, i, "{", v.ws);
    AtChar(s, i, "{", 0);
    AtChar(s, i + 1 + |v.ws| + |p|, "}", 0);
  }

  lemma ElemParts(e: Elems)
    requires e.Elem?
    ensures PrintElems(e) == e.pre + Print(e.v) + e.post + (if e.tail.NoElem? then "" else "," + PrintElems(e.tail))
  {
  }

  /** Where the parts of the first element stand; `stop` is the comma or closing bracket behind it. */
  lemma ElemAt(s: string, i: nat, e: Elems)
    requires e.Elem? && At(s, i, PrintElems(e))
    requires i + |PrintElems(e)| < |s| && s[i + |PrintElems(e)|] == ']'
    ensures var at := i + |e.pre|;
      var post := at + |Print(e.v)|;
      var stop := post + |e.post|;
      && At(s, i, e.pre) && At(s, at, Print(e.v)) && At(s, post, e.post) && stop < |s|
      && if e.tail.NoElem? then s[stop] == ']' && stop == i + |PrintElems(e)|
         else s[stop] == ',' && At(s, stop + 1, PrintElems(e.tail))
              && stop + 1 + |PrintElems(e.tail)| == i + |PrintElems(e)|
  {
    hide Print, PrintElems, At;
    var p := Print(e.v);
    var rest := if e.tail.NoElem? then "" else "," + PrintElems(e.tail);
    ElemParts(e);
    AtSplit4(s, i, e.pre, p, e.post, rest);
    if !e.tail.NoElem? {
      CommaAt(s, i + |e.pre| + |p| + |e.post|, PrintElems(e.tail));
    }
  }

  /** Where the value of the first member starts. */
  function ValueAt(i: nat, m: Members): nat
    requires m.Member?
  {
    i + |m.pre| + 1 + |m.key| + 1 + |m.afterKey| + 1 + |m.afterColon|
  }

  /** Where the parts of the first member stand; `stop` is the comma or closing brace behind it. */
  lemma MemberAt(s: string, i: nat, m: Members)
    requires m.Member? && At(s, i, PrintMembers(m))
    requires i + |PrintMembers(m)| < |s| && s[i + |PrintMembers(m)|] == '}'
    ensures var quote := i + |m.pre|;
      var close := quote + 1 + |m.key|;
      var colon := close + 1 + |m.afterKey|;
      var at := ValueAt(i, m);
      var post := at + |Print(m.v)|;
      var stop := post + |m.post|;
      && At(s, i, m.pre) && s[quote] == '"' && At(s, quote + 1, m.key) && s[close] == '"'
      && At(s, close + 1, m.afterKey) && s[colon] == ':' && At(s, colon + 1, m.afterColon)
      && At(s, at, Print(m.v)) && At(s, post, m.post) && stop < |s|
      && if m.tail.NoMember? then s[stop] == '}' && stop == i + |PrintMembers(m)|
         else s[stop] == ',' && At(s, stop + 1, PrintMembers(m.tail))
              && stop + 1 + |PrintMembers(m.tail)| == i + |PrintMembers(m)|
  {
    hide Print, PrintMembers, MemberHead, At;
    MemberParts(m);
    var p := Print(m.v);
    var rest := if m.tail.NoMember? then "" else "," + PrintMembers(m.tail);
    var head := MemberHead(m.pre, m.key, m.afterKey, m.afterColon);
    AtSplit4(s, i, head, p, m.post, rest);
    HeadAt(s, i, m);
    if !m.tail.NoMember? {
      CommaAt(s, i + |head| + |p| + |m.post|, PrintMembers(m.tail));
    }
  }

  lemma CommaAt(s: string, i: nat, more: string)
    requires At(s, i, "," + more)
    ensures i < |s| && s[i] == ',' && At(s, i + 1, more)
  {
    AtSplit(s, i, ",", more);
    AtChar(s, i, ",", 0);
  }

  lemma MemberParts(m: Members)
    requires m.Member?
    ensures var head := MemberHead(m.pre, m.key, m.afterKey, m.afterColon);
      && |head| == |m.pre| + |m.key| + |m.afterKey| + |m.afterColon| + 3
      && PrintMembers(m) == head + Print(m.v) + m.post + (if m.tail.NoMember? then "" else "," + PrintMembers(m.tail))
  {
  }

  lemma HeadAt(s: string, i: nat, m: Members)
    requires m.Member? && At(s, i, MemberHead(m.pre, m.key, m.afterKey, m.afterColon))
    ensures var quote := i + |m.pre|;
      var close := quote + 1 + |m.key|;
      var colon := close + 1 + |m.afterKey|;
      && At(s, i, m.pre) && s[quote] == '"' && At(s, quote + 1, m.key) && s[close] == '"'
      && At(s, close + 1, m.afterKey) && s[colon] == ':' && At(s, colon + 1, m.afterColon)
  {
    hide At;
    var lit := Literal(m.key);
    AtSplit(s, i, m.pre + lit + m.afterKey + ":", m.afterColon);
    AtSplit(s, i, m.pre + lit + m.afterKey, ":");
    AtSplit(s, i, m.pre + lit, m.afterKey);
    AtSplit(s, i, m.pre, lit);
    AtChar(s, i + |m.pre| + |lit| + |m.afterKey|, ":", 0);
    StrAt(s, i + |m.pre|, m.key);
  }

  // ------------------------------------------- skipping what is not looked for

  predicate Plain(text: string) {
    forall i :: 0 <= i < |text| ==> text[i] !in {'"', '{', '}', '[', ']'}
  }

  /** No colon follows, so a literal that ends here is not a key. */
  predicate NoColon(s: string, i: nat)
    requires i <= |s|
  {
    SkipWs(s, i) < |s| ==> s[SkipWs(s, i)] != ':'
  }

  lemma {:induction false} SkipWsAt(s: string, i: nat, ws: string)
    requires At(s, i, ws) && AllWs(ws) && (i + |ws| < |s| ==> !IsWs(s[i + |ws|]))
    ensures SkipWs(s, i) == i + |ws|
    decreases |ws|
  {
    if ws != [] {
      AtSplit(s, i, ws[..1], ws[1..]) by { assert ws[..1] + ws[1..] == ws; }
      AtChar(s, i, ws, 0);
      SkipWsAt(s, i + 1, ws[1..]);
    }
  }

  lemma {:induction false} SeekPlain(s: string, i: nat, text: string, o: nat, d: nat, arrays: bool, key: string)
    requires At(s, i, text) && Plain(text)
    ensures Seek(s, i, o, d, arrays, key) == Seek(s, i + |text|, o, d, arrays, key)
    decreases |text|
  {
    if text != [] {
      AtSplit(s, i, text[..1], text[1..]) by { assert text[..1] + text[1..] == text; }
      AtChar(s, i, text, 0);
      SeekPlain(s, i + 1, text[1..], o, d, arrays, key);
    }
  }

  lemma EmptyPrints()
    ensures PrintElems(NoElem) == "" && PrintMembers(NoMember) == ""
  {
  }

  lemma WsPlain(ws: string)
    requires AllWs(ws)
    ensures Plain(ws)
  {
  }

  /** A literal that is not a key at the top level is stepped over. */
  lemma SeekLiteral(s: string, i: nat, raw: string, o: nat, d: nat, arrays: bool, key: string)
    requires i + |raw| + 2 <= |s| && s[i] == '"' && At(s, i + 1, raw) && s[i + 1 + |raw|] == '"' && RawContent(raw)
    requires o != 1 || d != 0 || NoColon(s, i + |raw| + 2)
    ensures Seek(s, i, o, d, arrays, key) == Seek(s, i + |raw| + 2, o, d, arrays, key)
  {
    ClosingQuoteFound(s, i + 1, raw);
  }

  /** A value in value position is stepped over, at any depth and whatever it contains. */
  lemma {:induction false} SeekValue(s: string, i: nat, v: Value, o: nat, d: nat, arrays: bool, key: string)
    requires Valid(v) && At(s, i, Print(v)) && o >= 1 && NoColon(s, i + |Print(v)|)
    ensures Seek(s, i, o, d, arrays, key) == Seek(s, i + |Print(v)|, o, d, arrays, key)
    decreases v, 0
  {
    hide Seek, StringEnd, SkipWs, IsKey, PrintElems, PrintMembers, At, Plain, NoColon, RawContent, AllWs;
    match v
    case Str(raw) =>
      StrAt(s, i, raw);
      SeekLiteral(s, i, raw, o, d, arrays, key);
    case Atom(text) =>
      SeekPlain(s, i, text, o, d, arrays, key);
    case Arr(ws, elems) =>
      var inner := if arrays then d + 1 else d;
      ArrAt(s, i, v);
      WsPlain(ws);
      SeekPlain(s, i + 1, ws, o, inner, arrays, key);
      SeekElems(s, i + 1 + |ws|, elems, o, inner, arrays, key);
      SeekOpenClose(s, i, i + |Print(v)| - 1, o, d, arrays, key);
    case Obj(ws, members) =>
      ObjAt(s, i, v);
      WsPlain(ws);
      SeekPlain(s, i + 1, ws, o + 1, d, arrays, key);
      SeekDeepMembers(s, i + 1 + |ws|, members, o + 1, d, arrays, key);
      SeekOpenClose(s, i, i + |Print(v)| - 1, o, d, arrays, key);
  }

  /** The steps at the brackets of an array or object. */
  lemma SeekOpenClose(s: string, open: nat, close: nat, o: nat, d: nat, arrays: bool, key: string)
    requires open < |s| && close < |s|
    ensures var inner := if arrays then d + 1 else d;
      && (s[open] == '[' ==> Seek(s, open, o, d, arrays, key) == Seek(s, open + 1, o, inner, arrays, key))
      && (s[close] == ']' ==> Seek(s, close, o, inner, arrays, key) == Seek(s, close + 1, o, d, arrays, key))
    ensures s[open] == '{' ==> Seek(s, open, o, d, arrays, key) == Seek(s, open + 1, o + 1, d, arrays, key)
    ensures s[close] == '}' ==> Seek(s, close, o + 1, d, arrays, key) == Seek(s, close + 1, o, d, arrays, key)
    ensures s[open] in {',', ':'} ==> Seek(s, open, o, d, arrays, key) == Seek(s, open + 1, o, d, arrays, key)
  {
  }

  /** Behind a value and its trailing whitespace stands a delimiter, never a colon. */
  lemma NoColonBehind(s: string, i: nat, post: string)
    requires At(s, i, post) && AllWs(post) && i + |post| < |s| && s[i + |post|] in {',', '}', ']'}
    ensures NoColon(s, i) && SkipWs(s, i) == i + |post|
  {
  }

  lemma {:induction false} SeekElems(s: string, i: nat, e: Elems, o: nat, d: nat, arrays: bool, key: string)
    requires ValidElems(e) && At(s, i, PrintElems(e)) && o >= 1
    requires i + |PrintElems(e)| < |s| && s[i + |PrintElems(e)|] == ']'
    ensures Seek(s, i, o, d, arrays, key) == Seek(s, i + |PrintElems(e)|, o, d, arrays, key)
    decreases e
  {
    hide Seek, Print, PrintElems, Valid, NoColon, At, AllWs, SkipWs, Plain;
    EmptyPrints();
    if !e.NoElem? {
      ElemAt(s, i, e);
      var at := i + |e.pre|;
      var post := at + |Print(e.v)|;
      var stop := post + |e.post|;
      WsPlain(e.pre);
      WsPlain(e.post);
      SeekPlain(s, i, e.pre, o, d, arrays, key);
      NoColonBehind(s, post, e.post);
      SeekValue(s, at, e.v, o, d, arrays, key);
      SeekPlain(s, post, e.post, o, d, arrays, key);
      if !e.tail.NoElem? {
        SeekOpenClose(s, stop, stop, o, d, arrays, key);
        SeekElems(s, stop + 1, e.tail, o, d, arrays, key);
      }
    }
  }

  /** Members of a nested object are stepped over, keys included. */
  lemma {:induction false} SeekDeepMembers(s: string, i: nat, m: Members, o: nat, d: nat, arrays: bool, key: string)
    requires ValidMembers(m) && At(s, i, PrintMembers(m)) && o >= 2
    requires i + |PrintMembers(m)| < |s| && s[i + |PrintMembers(m)|] == '}'
    ensures Seek(s, i, o, d, arrays, key) == Seek(s, i + |PrintMembers(m)|, o, d, arrays, key)
    decreases m
  {
    hide Seek, Print, PrintMembers, Valid, NoColon, RawContent, At, AllWs, SkipWs, Plain;
    EmptyPrints();
    if !m.NoMember? {
      MemberAt(s, i, m);
      var quote := i + |m.pre|;
      WsPlain(m.pre);
      SeekPlain(s, i, m.pre, o, d, arrays, key);
      SeekLiteral(s, quote, m.key, o, d, arrays, key);
      SeekToValue(s, i, m, o, d, arrays, key);
      SeekPastValue(s, i, m, o, d, arrays, key);
      if !m.tail.NoMember? {
        var stop := ValueAt(i, m) + |Print(m.v)| + |m.post|;
        SeekOpenClose(s, stop, stop, o, d, arrays, key);
        SeekDeepMembers(s, stop + 1, m.tail, o, d, arrays, key);
      }
    }
  }

  /** From behind a key to its value. */
  lemma SeekToValue(s: string, i: nat, m: Members, o: nat, d: nat, arrays: bool, key: string)
    requires m.Member? && AllWs(m.afterKey) && AllWs(m.afterColon)
    requires var colon := i + |m.pre| + |m.key| + 2 + |m.afterKey|;
      At(s, i + |m.pre| + |m.key| + 2, m.afterKey) && colon < |s| && s[colon] == ':' && At(s, colon + 1, m.afterColon)
    ensures Seek(s, i + |m.pre| + |m.key| + 2, o, d, arrays, key) == Seek(s, ValueAt(i, m), o, d, arrays, key)
  {
    var colon := i + |m.pre| + |m.key| + 2 + |m.afterKey|;
    hide Seek;
    WsPlain(m.afterKey);
    WsPlain(m.afterColon);
    SeekPlain(s, i + |m.pre| + |m.key| + 2, m.afterKey, o, d, arrays, key);
    SeekOpenClose(s, colon, colon, o, d, arrays, key);
    SeekPlain(s, colon + 1, m.afterColon, o, d, arrays, key);
  }

  /** From a member's value to the delimiter behind it. */
  lemma SeekPastValue(s: string, i: nat, m: Members, o: nat, d: nat, arrays: bool, key: string)
    requires m.Member? && Valid(m.v) && AllWs(m.post) && o >= 1
    requires var post := ValueAt(i, m) + |Print(m.v)|;
      && At(s, ValueAt(i, m), Print(m.v)) && At(s, post, m.post)
      && post + |m.post| < |s| && s[post + |m.post|] in {',', '}'}
    ensures var at := ValueAt(i, m);
      Seek(s, at, o, d, arrays, key) == Seek(s, at + |Print(m.v)| + |m.post|, o, d, arrays, key)
    decreases m.v, 1
  {
    hide Seek, Print, Valid, NoColon, At, AllWs, SkipWs, Plain;
    var post := ValueAt(i, m) + |Print(m.v)|;
    NoColonBehind(s, post, m.post);
    SeekValue(s, ValueAt(i, m), m.v, o, d, arrays, key);
    WsPlain(m.post);
    SeekPlain(s, post, m.post, o, d, arrays, key);
  }

  // --------------------------------------------------- the end of an object

  lemma {:induction false} EndPlain(s: string, i: nat, text: string, depth: nat)
    requires At(s, i, text) && Plain(text)
    ensures ObjectEnd(s, i, depth) == ObjectEnd(s, i + |text|, depth)
    decreases |text|
  {
    if text != [] {
      AtSplit(s, i, text[..1], text[1..]) by { assert text[..1] + text[1..] == text; }
      AtChar(s, i, text, 0);
      EndPlain(s, i + 1, text[1..], depth);
    }
  }

  lemma EndLiteral(s: string, i: nat, raw: string, depth: nat)
    requires i + |raw| + 2 <= |s| && s[i] == '"' && At(s, i + 1, raw) && s[i + 1 + |raw|] == '"' && RawContent(raw)
    ensures ObjectEnd(s, i, depth) == ObjectEnd(s, i + |raw| + 2, depth)
  {
    ClosingQuoteFound(s, i + 1, raw);
  }

  lemma EndStep(s: string, i: nat, depth: nat)
    requires i < |s|
    ensures s[i] in {',', ':', '[', ']'} ==> ObjectEnd(s, i, depth) == ObjectEnd(s, i + 1, depth)
    ensures s[i] == '{' ==> ObjectEnd(s, i, depth) == ObjectEnd(s, i + 1, depth + 1)
    ensures s[i] == '}' && depth >= 2 ==> ObjectEnd(s, i, depth) == ObjectEnd(s, i + 1, depth - 1)
    ensures s[i] == '}' && depth == 1 ==> ObjectEnd(s, i, depth) == Some(i)
  {
  }

  /** A value inside an object does not change its brace depth. */
  lemma {:induction false} EndValue(s: string, i: nat, v: Value, depth: nat)
    requires Valid(v) && At(s, i, Print(v)) && depth >= 1
    ensures ObjectEnd(s, i, depth) == ObjectEnd(s, i + |Print(v)|, depth)
    decreases v, 0
  {
    hide ObjectEnd, PrintElems, PrintMembers;
    match v
    case Str(raw) =>
      StrAt(s, i, raw);
      EndLiteral(s, i, raw, depth);
    case Atom(text) =>
      EndPlain(s, i, text, depth);
    case Arr(ws, elems) =>
      ArrAt(s, i, v);
      EndStep(s, i, depth);
      WsPlain(ws);
      EndPlain(s, i + 1, ws, depth);
      EndElems(s, i + 1 + |ws|, elems, depth);
      EndStep(s, i + |Print(v)| - 1, depth);
    case Obj(ws, members) =>
      EndObject(s, i, v, depth);
  }

  /** An object is closed by its own brace: found at depth zero, passed at any other. */
  lemma {:induction false} EndObject(s: string, i: nat, v: Value, depth: nat)
    requires v.Obj? && Valid(v) && At(s, i, Print(v))
    ensures ObjectEnd(s, i, depth)
         == if depth == 0 then Some(i + |Print(v)| - 1) else ObjectEnd(s, i + |Print(v)|, depth)
    decreases v, 0, 0
  {
    hide ObjectEnd, PrintMembers, At, Plain;
    ObjAt(s, i, v);
    EndStep(s, i, depth);
    WsPlain(v.ws);
    EndPlain(s, i + 1, v.ws, depth + 1);
    EndMembers(s, i + 1 + |v.ws|, v.members, depth + 1);
    EndStep(s, i + |Print(v)| - 1, depth + 1);
  }

  lemma {:induction false} EndElems(s: string, i: nat, e: Elems, depth: nat)
    requires ValidElems(e) && At(s, i, PrintElems(e)) && depth >= 1
    requires i + |PrintElems(e)| < |s| && s[i + |PrintElems(e)|] == ']'
    ensures ObjectEnd(s, i, depth) == ObjectEnd(s, i + |PrintElems(e)|, depth)
    decreases e
  {
    hide ObjectEnd, Print, PrintElems, Valid, At, AllWs, Plain;
    EmptyPrints();
    if !e.NoElem? {
      ElemAt(s, i, e);
      var at := i + |e.pre|;
      var post := at + |Print(e.v)|;
      var stop := post + |e.post|;
      WsPlain(e.pre);
      WsPlain(e.post);
      EndPlain(s, i, e.pre, depth);
      EndValue(s, at, e.v, depth);
      EndPlain(s, post, e.post, depth);
      if !e.tail.NoElem? {
        EndStep(s, stop, depth);
        EndElems(s, stop + 1, e.tail, depth);
      }
    }
  }

  lemma {:induction false} EndMembers(s: string, i: nat, m: Members, depth: nat)
    requires ValidMembers(m) && At(s, i, PrintMembers(m)) && depth >= 1
    requires i + |PrintMembers(m)| < |s| && s[i + |PrintMembers(m)|] == '}'
    ensures ObjectEnd(s, i, depth) == ObjectEnd(s, i + |PrintMembers(m)|, depth)
    decreases m
  {
    hide ObjectEnd, Print, PrintMembers, Valid, RawContent, At, AllWs, Plain;
    EmptyPrints();
    if !m.NoMember? {
      MemberAt(s, i, m);
      var quote := i + |m.pre|;
      var colon := quote + |m.key| + 2 + |m.afterKey|;
      var at := ValueAt(i, m);
      var post := at + |Print(m.v)|;
      var stop := post + |m.post|;
      WsPlain(m.pre);
      WsPlain(m.afterKey);
      WsPlain(m.afterColon);
      WsPlain(m.post);
      EndPlain(s, i, m.pre, depth);
      EndLiteral(s, quote, m.key, depth);
      EndPlain(s, quote + |m.key| + 2, m.afterKey, depth);
      EndStep(s, colon, depth);
      EndPlain(s, colon + 1, m.afterColon, depth);
      EndValue(s, at, m.v, depth);
      EndPlain(s, post, m.post, depth);
      if !m.tail.NoMember? {
        EndStep(s, stop, depth);
        EndMembers(s, stop + 1, m.tail, depth);
      }
    }
  }

  // ------------------------------------------------- finding a top-level member

  /** Where the value of the first member with that key starts. */
  function FirstAt(i: nat, m: Members, key: string): nat
    requires FirstMember(m, key).Some?
    decreases m
  {
    if m.key == key then ValueAt(i, m)
    else FirstAt(ValueAt(i, m) + |Print(m.v)| + |m.post| + 1, m.tail, key)
  }

  /** `v` is printed at `at` and a delimiter follows it. */
  predicate Placed(s: string, at: nat, v: Value) {
    && At(s, at, Print(v)) && Valid(v)
    && var after := SkipWs(s, at + |Print(v)|);
       after < |s| && s[after] in {',', '}'}
  }

  lemma ValueStart(s: string, at: nat, v: Value)
    requires Valid(v) && At(s, at, Print(v))
    ensures at < |s| && !IsWs(s[at])
    ensures s[at] == match v case Str(_) => '"' case Atom(text) => text[0] case Arr(_, _) => '[' case Obj(_, _) => '{'
  {
  }

  lemma {:induction false} SeekTopMembers(s: string, i: nat, m: Members, arrays: bool, key: string)
    requires ValidMembers(m) && At(s, i, PrintMembers(m))
    requires i + |PrintMembers(m)| < |s| && s[i + |PrintMembers(m)|] == '}'
    ensures var found := FirstMember(m, key);
      var r := Seek(s, i, 1, 0, arrays, key);
      if found.None? then r == Seek(s, i + |PrintMembers(m)|, 1, 0, arrays, key)
      else r == Some(FirstAt(i, m, key)) && Placed(s, FirstAt(i, m, key), found.value)
    decreases m
  {
    hide Seek, Print, PrintMembers, Valid, NoColon, RawContent, At, AllWs, SkipWs, Plain, Placed;
    EmptyPrints();
    if !m.NoMember? {
      MemberAt(s, i, m);
      var quote := i + |m.pre|;
      var stop := ValueAt(i, m) + |Print(m.v)| + |m.post|;
      WsPlain(m.pre);
      SeekPlain(s, i, m.pre, 1, 0, arrays, key);
      SeekTopKey(s, i, m, arrays, key);
      if m.key != key {
        SeekToValue(s, i, m, 1, 0, arrays, key);
        SeekPastValue(s, i, m, 1, 0, arrays, key);
        if !m.tail.NoMember? {
          SeekOpenClose(s, stop, stop, 1, 0, arrays, key);
          SeekTopMembers(s, stop + 1, m.tail, arrays, key);
        }
      }
    }
  }

  /** At a top-level key: found if it is the one, passed if it is not. */
  lemma SeekTopKey(s: string, i: nat, m: Members, arrays: bool, key: string)
    requires m.Member? && ValidMembers(m) && At(s, i, PrintMembers(m))
    requires i + |PrintMembers(m)| < |s| && s[i + |PrintMembers(m)|] == '}'
    ensures var r := Seek(s, i + |m.pre|, 1, 0, arrays, key);
      if m.key == key then r == Some(ValueAt(i, m)) && Placed(s, ValueAt(i, m), m.v)
      else r == Seek(s, i + |m.pre| + |m.key| + 2, 1, 0, arrays, key)
  {
    hide Seek, Print, PrintMembers, Valid, RawContent, At, AllWs, SkipWs, IsKey, Placed;
    MemberAt(s, i, m);
    var quote := i + |m.pre|;
    SeekAtLiteral(s, quote, m.key, arrays, key);
    MemberKey(s, i, m, key);
    MemberPlaced(s, i, m);
  }

  /** The literal at the head of a member is a key, and its value starts where the member says. */
  lemma MemberKey(s: string, i: nat, m: Members, key: string)
    requires m.Member? && ValidMembers(m) && At(s, i, PrintMembers(m))
    requires i + |PrintMembers(m)| < |s| && s[i + |PrintMembers(m)|] == '}'
    ensures var close := i + |m.pre| + 1 + |m.key|;
      && close + 1 <= |s| && SkipWs(s, close + 1) < |s|
      && (IsKey(s, i + |m.pre|, close, key) <==> m.key == key)
      && SkipWs(s, SkipWs(s, close + 1) + 1) == ValueAt(i, m)
  {
    hide Print, PrintMembers, Valid, RawContent, At, AllWs, SkipWs, IsKey;
    MemberAt(s, i, m);
    var quote := i + |m.pre|;
    var close := quote + 1 + |m.key|;
    var colon := close + 1 + |m.afterKey|;
    SkipWsAt(s, close + 1, m.afterKey) by { assert !IsWs(s[colon]); }
    KeyIs(s, quote, m.key, key);
    ValueStart(s, ValueAt(i, m), m.v);
    SkipWsAt(s, colon + 1, m.afterColon);
  }

  lemma MemberPlaced(s: string, i: nat, m: Members)
    requires m.Member? && ValidMembers(m) && At(s, i, PrintMembers(m))
    requires i + |PrintMembers(m)| < |s| && s[i + |PrintMembers(m)|] == '}'
    ensures Placed(s, ValueAt(i, m), m.v)
  {
    hide Print, PrintMembers, Valid, RawContent, At, AllWs, SkipWs, NoColon;
    MemberAt(s, i, m);
    NoColonBehind(s, ValueAt(i, m) + |Print(m.v)|, m.post);
  }

  lemma SeekAtLiteral(s: string, i: nat, raw: string, arrays: bool, key: string)
    requires i + |raw| + 2 <= |s| && s[i] == '"' && At(s, i + 1, raw) && s[i + 1 + |raw|] == '"' && RawContent(raw)
    ensures var end := i + 1 + |raw|;
      Seek(s, i, 1, 0, arrays, key)
      == if IsKey(s, i, end, key) then Some(SkipWs(s, SkipWs(s, end + 1) + 1)) else Seek(s, end + 1, 1, 0, arrays, key)
  {
    hide IsKey;
    ClosingQuoteFound(s, i + 1, raw);
  }

  lemma KeyIs(s: string, i: nat, raw: string, key: string)
    requires i + |raw| + 2 <= |s| && At(s, i + 1, raw)
    requires SkipWs(s, i + |raw| + 2) < |s| && s[SkipWs(s, i + |raw| + 2)] == ':'
    ensures IsKey(s, i, i + 1 + |raw|, key) <==> raw == key
  {
  }
}
