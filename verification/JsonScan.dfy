/**
 The top-level field lookups of the control socket (`src/stats/uds_server.cpp`): index scans over
 request text that track nesting depth and skip string literals.
 */
module JsonScan {
  import opened Bytes
  import opened Decimals
  import opened JsonString

  predicate IsWs(c: char) {
    c == ' ' || c == '\t' || c == '\n' || c == '\r'
  }

  function SkipWs(s: string, i: nat): (r: nat)
    requires i <= |s|
    ensures i <= r <= |s| && (r < |s| ==> !IsWs(s[r])) && forall k :: i <= k < r ==> IsWs(s[k])
    decreases |s| - i
  {
    if i < |s| && IsWs(s[i]) then SkipWs(s, i + 1) else i
  }

  /** The literal `i..end` is followed by a colon and spells `key`. */
  predicate IsKey(s: string, i: nat, end: nat, key: string)
    requires i < end < |s|
  {
    var colon := SkipWs(s, end + 1);
    colon < |s| && s[colon] == ':' && s[i + 1..end] == key
  }

  /**
   Where the value of the first top-level `key` starts, scanning from `i` at the given nesting depths.
   The lookup of string fields also tracks array depth (`arrays`); the other two do not.
   */
  function Seek(s: string, i: nat, objects: nat, depth: nat, arrays: bool, key: string): (r: Option<nat>)
    ensures r.Some? ==> r.value <= |s|
    decreases |s| - i
  {
    if i >= |s| then None
    else if s[i] == '"' then
      match StringEnd(s, i + 1)
      case None => None
      case Some(end) =>
        if objects == 1 && depth == 0 && IsKey(s, i, end, key) then Some(SkipWs(s, SkipWs(s, end + 1) + 1))
        else Seek(s, end + 1, objects, depth, arrays, key)
    else if s[i] == '{' then Seek(s, i + 1, objects + 1, depth, arrays, key)
    else if s[i] == '}' then if objects == 0 then None else Seek(s, i + 1, objects - 1, depth, arrays, key)
    else if arrays && s[i] == '[' then Seek(s, i + 1, objects, depth + 1, arrays, key)
    else if arrays && s[i] == ']' then if depth == 0 then None else Seek(s, i + 1, objects, depth - 1, arrays, key)
    else Seek(s, i + 1, objects, depth, arrays, key)
  }

  /** The value ends where it should: at a comma, a closing brace or the end of the text. */
  predicate Delimited(s: string, i: nat)
    requires i <= |s|
  {
    var after := SkipWs(s, i);
    after < |s| ==> s[after] == ',' || s[after] == '}'
  }

  function ReadString(s: string, v: nat): Option<string> {
    if v >= |s| || s[v] != '"' then None
    else match StringEnd(s, v + 1)
      case None => None
      case Some(end) => if Delimited(s, end + 1) then Some(Unescaped(s[v + 1..end])) else None
  }

  function ReadUint(s: string, v: nat): (r: Option<nat>)
    ensures r.Some? ==> r.value < U64
  {
    if v >= |s| || !IsDigit(s[v]) then None
    else
      var e := DigitsEnd(s, v);
      if Decimal(s, v, e) < U64 && Delimited(s, e) then Some(Decimal(s, v, e)) else None
  }

  /** The brace that closes the object opened at depth zero. */
  function ObjectEnd(s: string, i: nat, depth: nat): (r: Option<nat>)
    ensures r.Some? ==> i <= r.value < |s|
    decreases |s| - i
  {
    if i >= |s| then None
    else if s[i] == '"' then
      match StringEnd(s, i + 1)
      case None => None
      case Some(end) => ObjectEnd(s, end + 1, depth)
    else if s[i] == '{' then ObjectEnd(s, i + 1, depth + 1)
    else if s[i] == '}' then
      if depth == 0 then None else if depth == 1 then Some(i) else ObjectEnd(s, i + 1, depth - 1)
    else ObjectEnd(s, i + 1, depth)
  }

  function ReadObject(s: string, v: nat): Option<string> {
    if v >= |s| || s[v] != '{' then None
    else match ObjectEnd(s, v, 0)
      case None => None
      case Some(end) => Some(s[v..end + 1])
  }

  function StringField(s: string, key: string): Option<string> {
    if s == [] || s[0] != '{' then None
    else match Seek(s, 0, 0, 0, true, key) case None => None case Some(v) => ReadString(s, v)
  }

  function UintField(s: string, key: string): Option<nat> {
    if s == [] || s[0] != '{' then None
    else match Seek(s, 0, 0, 0, false, key) case None => None case Some(v) => ReadUint(s, v)
  }

  function ObjectField(s: string, key: string): Option<string> {
    if s == [] || s[0] != '{' then None
    else match Seek(s, 0, 0, 0, false, key) case None => None case Some(v) => ReadObject(s, v)
  }

  // ------------------------------------------------------------------- methods

  method SkipWhitespace(json: string, start: nat) returns (cursor: nat)
    requires start <= |json|
    ensures cursor == SkipWs(json, start)
  {
    cursor := start;
    while cursor < |json| && IsWs(json[cursor])
      invariant start <= cursor <= |json| && SkipWs(json, start) == SkipWs(json, cursor)
    {
      cursor := cursor + 1;
    }
  }

  /** The check at a string literal of depth one: is it the key, and where does its value start? */
  method KeyValueStart(json: string, i: nat, end: nat, key: string) returns (start: Option<nat>)
    requires i < end < |json|
    ensures start == if IsKey(json, i, end, key) then Some(SkipWs(json, SkipWs(json, end + 1) + 1)) else None
  {
    var cursor := SkipWhitespace(json, end + 1);
    if cursor < |json| && json[cursor] == ':' {
      if json[i + 1..end] == key {
        cursor := SkipWhitespace(json, cursor + 1);
        return Some(cursor);
      }
    }
    return None;
  }

  method CheckDelimiter(json: string, start: nat) returns (ok: bool)
    requires start <= |json|
    ensures ok == Delimited(json, start)
  {
    var after := SkipWhitespace(json, start);
    return !(after < |json| && json[after] != ',' && json[after] != '}');
  }

  /** `parse_top_level_string_field` */
  method ParseTopLevelStringField(json: string, key: string) returns (r: Option<string>)
    ensures r == StringField(json, key)
  {
    hide IsKey, SkipWs, StringEnd, ReadString, ReadUint, ReadObject, Delimited;
    if json == [] || json[0] != '{' {
      return None;
    }
    var objects, depth, i := 0, 0, 0;
    while i < |json|
      invariant 0 <= i <= |json|
      invariant Seek(json, 0, 0, 0, true, key) == Seek(json, i, objects, depth, true, key)
    {
      var c := json[i];
      if c == '{' {
        objects, i := objects + 1, i + 1;
      } else if c == '}' {
        if objects == 0 {
          return None;
        }
        objects, i := objects - 1, i + 1;
      } else if c == '[' {
        depth, i := depth + 1, i + 1;
      } else if c == ']' {
        if depth == 0 {
          return None;
        }
        depth, i := depth - 1, i + 1;
      } else if c == '"' {
        var end := FindJsonStringEnd(json, i);
        if end.None? {
          return None;
        }
        if objects == 1 && depth == 0 {
          var start := KeyValueStart(json, i, end.value, key);
          if start.Some? {
            r := ReadStringValue(json, start.value);
            return;
          }
        }
        i := end.value + 1;
      } else {
        i := i + 1;
      }
    }
    return None;
  }

  method ReadStringValue(json: string, cursor: nat) returns (r: Option<string>)
    ensures r == ReadString(json, cursor)
  {
    if cursor < |json| && json[cursor] == '"' {
      var end := FindJsonStringEnd(json, cursor);
      if end.None? {
        return None;
      }
      var ok := CheckDelimiter(json, end.value + 1);
      if !ok {
        return None;
      }
      var value := UnescapeJsonString(json[cursor + 1..end.value]);
      return Some(value);
    }
    return None;
  }

  /** `parse_top_level_uint64_field` */
  method ParseTopLevelUint64Field(json: string, key: string) returns (r: Option<nat>)
    ensures r == UintField(json, key)
  {
    hide IsKey, SkipWs, StringEnd, ReadString, ReadUint, ReadObject, Delimited;
    if json == [] || json[0] != '{' {
      return None;
    }
    var depth, i := 0, 0;
    while i < |json|
      invariant 0 <= i <= |json|
      invariant Seek(json, 0, 0, 0, false, key) == Seek(json, i, depth, 0, false, key)
    {
      var c := json[i];
      if c == '"' {
        var end := FindJsonStringEnd(json, i);
        if end.None? {
          return None;
        }
        if depth == 1 {
          var start := KeyValueStart(json, i, end.value, key);
          if start.Some? {
            r := ReadUintValue(json, start.value);
            return;
          }
        }
        i := end.value + 1;
      } else if c == '{' {
        depth, i := depth + 1, i + 1;
      } else if c == '}' {
        if depth == 0 {
          return None;
        }
        depth, i := depth - 1, i + 1;
      } else {
        i := i + 1;
      }
    }
    return None;
  }

  /** The digit loop; the guard before each step keeps the accumulator below 2^64 and nothing less. */
  method ReadUintValue(json: string, start: nat) returns (r: Option<nat>)
    requires start <= |json|
    ensures r == ReadUint(json, start)
  {
    var cursor := start;
    if cursor >= |json| || json[cursor] < '0' || json[cursor] > '9' {
      return None;
    }
    var value := 0;
    ghost var e := DigitsEnd(json, start);
    while cursor < |json| && '0' <= json[cursor] <= '9'
      invariant start <= cursor <= |json| && DigitsEnd(json, cursor) == e
      invariant cursor <= e && value == Decimal(json, start, cursor) < U64
    {
      var digit := DigitValue(json[cursor]);
      if value > (U64 - 1 - digit) / 10 {
        DecimalGrows(json, start, cursor + 1, e);
        return None;
      }
      value := value * 10 + digit;
      cursor := cursor + 1;
    }
    assert cursor == e;
    var ok := CheckDelimiter(json, cursor);
    return if ok then Some(value) else None;
  }

  /** `extract_top_level_object_field` */
  method ExtractTopLevelObjectField(json: string, key: string) returns (r: Option<string>)
    ensures r == ObjectField(json, key)
  {
    hide IsKey, SkipWs, StringEnd, ReadString, ReadUint, ReadObject, Delimited;
    if json == [] || json[0] != '{' {
      return None;
    }
    var depth, i := 0, 0;
    while i < |json|
      invariant 0 <= i <= |json|
      invariant Seek(json, 0, 0, 0, false, key) == Seek(json, i, depth, 0, false, key)
    {
      var c := json[i];
      if c == '"' {
        var end := FindJsonStringEnd(json, i);
        if end.None? {
          return None;
        }
        if depth == 1 {
          var start := KeyValueStart(json, i, end.value, key);
          if start.Some? {
            r := ReadObjectValue(json, start.value);
            return;
          }
        }
        i := end.value + 1;
      } else if c == '{' {
        depth, i := depth + 1, i + 1;
      } else if c == '}' {
        if depth == 0 {
          return None;
        }
        depth, i := depth - 1, i + 1;
      } else {
        i := i + 1;
      }
    }
    return None;
  }

  method ReadObjectValue(json: string, cursor: nat) returns (r: Option<string>)
    ensures r == ReadObject(json, cursor)
  {
    if cursor >= |json| || json[cursor] != '{' {
      return None;
    }
    var end := FindJsonObjectEnd(json, cursor);
    if end.None? {
      return None;
    }
    return Some(json[cursor..end.value + 1]);
  }

  /** Where `find_json_object_end` continues from inside a literal. */
  function AfterLiteral(s: string, i: nat, depth: nat): Option<nat> {
    match StringEnd(s, i) case None => None case Some(end) => ObjectEnd(s, end + 1, depth)
  }

  /** `find_json_object_end` */
  method FindJsonObjectEnd(json: string, start: nat) returns (r: Option<nat>)
    ensures r == if start < |json| && json[start] == '{' then ObjectEnd(json, start, 0) else None
  {
    if start >= |json| || json[start] != '{' {
      return None;
    }
    var depth, inString, escaped := 0, false, false;
    var i := start;
    while i < |json|
      invariant start <= i <= |json|
      invariant !inString ==> !escaped && ObjectEnd(json, start, 0) == ObjectEnd(json, i, depth)
      invariant inString ==> ObjectEnd(json, start, 0) == AfterLiteral(json, if escaped then i + 1 else i, depth)
    {
      var c := json[i];
      if inString {
        if escaped {
          escaped := false;
        } else if c == '\\' {
          escaped := true;
        } else if c == '"' {
          inString := false;
        }
      } else if c == '"' {
        inString := true;
      } else if c == '{' {
        depth := depth + 1;
      } else if c == '}' {
        if depth == 0 {
          return None;
        }
        depth := depth - 1;
        if depth == 0 {
          return Some(i);
        }
      }
      i := i + 1;
    }
    return None;
  }

  /** `parse_payload_uint64_field` */
  method ParsePayloadUint64Field(json: string, key: string) returns (r: Option<nat>)
    ensures r == PayloadUint(json, key)
  {
    var payload := ExtractTopLevelObjectField(json, "payload");
    if payload.None? {
      return None;
    }
    r := ParseTopLevelUint64Field(payload.value, key);
  }

  function PayloadUint(json: string, key: string): Option<nat> {
    match ObjectField(json, "payload") case None => None case Some(p) => UintField(p, key)
  }
}
