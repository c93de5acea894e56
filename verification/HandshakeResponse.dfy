/**
 The HandshakeResponse41 parser (`extract_handshake_response_fields`,
 `src/protocol/handshake.cpp`) against the layout of the protocol page HandshakeResponse41.
 */
module HandshakeResponse {
  import opened Bytes
  import opened Slices
  import opened TextRow
  import opened Capabilities

  // Capability bits the parser looks at.
  const CONNECT_WITH_DB := 3      // 0x0000_0008
  const SECURE_CONNECTION := 15   // 0x0000_8000
  const PLUGIN_AUTH_LENENC := 21  // 0x0020_0000

  // ------------------------------------------------------------ protocol side

  /** A client response; `fixed` is max packet size, charset and the reserved bytes, `tail` whatever follows. */
  datatype Response = Response(caps: nat, fixed: seq<byte>, user: seq<byte>, prefix: Prefix, auth: seq<byte>,
                               db: seq<byte>, tail: seq<byte>)

  /** The authentication data in the encoding the capability flags select. */
  predicate ValidAuth(caps: nat, prefix: Prefix, auth: seq<byte>) {
    if Bit(caps, PLUGIN_AUTH_LENENC) then prefix != Eight && Encodable(Text(prefix, auth))
    else if Bit(caps, SECURE_CONNECTION) then |auth| < 256
    else 0 !in auth
  }

  predicate ValidResponse(r: Response) {
    && r.caps < 0x1_0000_0000 && |r.fixed| == 28
    && 0 !in r.user && ValidAuth(r.caps, r.prefix, r.auth)
    && 0 !in r.db && (!Bit(r.caps, CONNECT_WITH_DB) ==> r.db == [])
  }

  function EncodeAuth(caps: nat, prefix: Prefix, auth: seq<byte>): seq<byte> {
    if Bit(caps, PLUGIN_AUTH_LENENC) then EncodeCell(Text(prefix, auth))
    else if Bit(caps, SECURE_CONNECTION) then ToLE(|auth|, 1) + auth
    else auth + [0]
  }

  function EncodeDb(r: Response): seq<byte> {
    if Bit(r.caps, CONNECT_WITH_DB) then r.db + [0] else []
  }

  function Encode(r: Response): seq<byte> {
    ToLE(r.caps, 4) + r.fixed + r.user + [0] + EncodeAuth(r.caps, r.prefix, r.auth) + EncodeDb(r) + r.tail
  }

  // ----------------------------------------------------- what the parser does

  datatype Fields = Fields(user: seq<byte>, db: seq<byte>)

  /** A NUL-terminated string at `pos`: the position of its terminator. */
  function Terminator(payload: seq<byte>, pos: nat): (r: Option<nat>)
    requires pos <= |payload|
    ensures r.Some? ==> pos <= r.value < |payload|
  {
    var nul := NulAt(payload, pos);
    if nul < |payload| then Some(nul) else None
  }

  /** The position behind the authentication data. */
  function AuthEnd(payload: seq<byte>, pos: nat, caps: nat): (r: Option<nat>)
    requires pos <= |payload|
    ensures r.Some? ==> pos < r.value <= |payload|
  {
    if Bit(caps, PLUGIN_AUTH_LENENC) then
      if pos == |payload| || payload[pos] == 0xFE then None
      else match ReadInt(payload, pos)
        case None => None
        case Some(l) => if l.value > |payload| - l.next then None else Some(l.next + l.value)
    else if Bit(caps, SECURE_CONNECTION) then
      if pos == |payload| || payload[pos] > |payload| - (pos + 1) then None
      else Some(pos + 1 + payload[pos])
    else
      match Terminator(payload, pos)
      case None => None
      case Some(nul) => Some(nul + 1)
  }

  function Extract(payload: seq<byte>): Option<Fields> {
    if |payload| < 33 then None
    else
      var caps := FromLE(payload[..4]);
      match Terminator(payload, 32)
      case None => None
      case Some(userEnd) =>
        match AuthEnd(payload, userEnd + 1, caps)
        case None => None
        case Some(pos) =>
          if !Bit(caps, CONNECT_WITH_DB) then Some(Fields(payload[32..userEnd], []))
          else
            match Terminator(payload, pos)
            case None => None
            case Some(dbEnd) => Some(Fields(payload[32..userEnd], payload[pos..dbEnd]))
  }

  // ------------------------------------------------------------------- methods

  method FindNul(payload: seq<byte>, start: nat) returns (pos: nat)
    requires start <= |payload|
    ensures pos == NulAt(payload, start)
  {
    pos := start;
    while pos < |payload| && payload[pos] != 0
      invariant start <= pos <= |payload|
      invariant NulAt(payload, start) == NulAt(payload, pos)
    {
      pos := pos + 1;
    }
  }

  /** Skips the authentication data; every remaining-length subtraction is checked not to underflow. */
  method SkipAuth(payload: seq<byte>, start: nat, caps: nat) returns (ok: bool, pos: nat)
    requires start <= |payload|
    ensures ok == AuthEnd(payload, start, caps).Some?
    ensures ok ==> AuthEnd(payload, start, caps) == Some(pos)
  {
    pos := start;
    if Bit(caps, PLUGIN_AUTH_LENENC) {
      if pos >= |payload| {
        return false, pos;
      }
      var lenByte := payload[pos];
      pos := pos + 1;
      var authLen: nat := 0;
      if lenByte < 0xFB {
        authLen := lenByte;
      } else if lenByte == 0xFC {
        if pos + 1 >= |payload| {
          return false, pos;
        }
        LE2(payload[pos..pos + 2]);
        authLen := payload[pos] as nat + 0x100 * (payload[pos + 1] as nat);
        pos := pos + 2;
      } else if lenByte == 0xFD {
        if pos + 2 >= |payload| {
          return false, pos;
        }
        LE3(payload[pos..pos + 3]);
        authLen := payload[pos] as nat + 0x100 * (payload[pos + 1] as nat) + 0x1_0000 * (payload[pos + 2] as nat);
        pos := pos + 3;
      } else {
        return false, pos;
      }
      assert pos <= |payload|;
      if authLen > |payload| - pos {
        return false, pos;
      }
      return true, pos + authLen;
    } else if Bit(caps, SECURE_CONNECTION) {
      if pos >= |payload| {
        return false, pos;
      }
      var authLen := payload[pos];
      pos := pos + 1;
      assert pos <= |payload|;
      if authLen > |payload| - pos {
        return false, pos;
      }
      return true, pos + authLen;
    } else {
      pos := FindNul(payload, pos);
      if pos >= |payload| {
        return false, pos;
      }
      return true, pos + 1;
    }
  }

  method ExtractHandshakeResponseFields(payload: seq<byte>) returns (r: Option<Fields>)
    ensures r == Extract(payload)
  {
    if |payload| < 33 {
      return None;
    }
    var caps := FromLE(payload[..4]);
    var pos := FindNul(payload, 32);
    if pos >= |payload| {
      return None;
    }
    var user := payload[32..pos];
    pos := pos + 1;
    var ok;
    ok, pos := SkipAuth(payload, pos, caps);
    if !ok {
      return None;
    }
    if Bit(caps, CONNECT_WITH_DB) {
      if pos >= |payload| {
        assert Terminator(payload, pos) == None;
        return None;
      }
      var dbStart := pos;
      pos := FindNul(payload, pos);
      if pos >= |payload| {
        return None;
      }
      return Some(Fields(user, payload[dbStart..pos]));
    }
    return Some(Fields(user, []));
  }

  // -------------------------------------------------------------------- lemmas

  /** A NUL-free string followed by NUL is found whole. */
  lemma TerminatorFound(payload: seq<byte>, pos: nat, s: seq<byte>)
    requires At(payload, pos, s + [0]) && 0 !in s
    ensures Terminator(payload, pos) == Some(pos + |s|)
    ensures payload[pos..pos + |s|] == s
  {
    var end := pos + |s|;
    var part := s + [0];
    assert payload[pos..pos + |part|] == part;
    assert payload[end] == part[|s|];
    assert forall k :: pos <= k < end ==> payload[k] == s[k - pos];
    NulFound(payload, pos, end);
  }

  /** The authentication data is skipped exactly, in each of its encodings. */
  lemma AuthSkipped(payload: seq<byte>, pos: nat, r: Response)
    requires ValidAuth(r.caps, r.prefix, r.auth) && At(payload, pos, EncodeAuth(r.caps, r.prefix, r.auth))
    ensures AuthEnd(payload, pos, r.caps) == Some(pos + |EncodeAuth(r.caps, r.prefix, r.auth)|)
  {
    hide Bit, ReadInt, EncodeCell, Encodable, At, ToLE, Terminator;
    if Bit(r.caps, PLUGIN_AUTH_LENENC) {
      CellAt(payload, pos, Text(r.prefix, r.auth));
    } else if Bit(r.caps, SECURE_CONNECTION) {
      SecureAt(payload, pos, r.auth);
    } else {
      TerminatorFound(payload, pos, r.auth);
    }
  }

  lemma CellAt(payload: seq<byte>, pos: nat, c: Cell)
    requires c.Text? && c.prefix != Eight && Encodable(c) && At(payload, pos, EncodeCell(c))
    ensures pos < |payload| && payload[pos] != 0xFE
    ensures ReadInt(payload, pos).Some?
    ensures var l := ReadInt(payload, pos).value;
      l.next + l.value == pos + |EncodeCell(c)| <= |payload|
  {
    hide ReadInt, EncodeCell, Encodable;
    SkipsText(payload, pos, c);
  }

  lemma SecureAt(payload: seq<byte>, pos: nat, auth: seq<byte>)
    requires |auth| < 256 && At(payload, pos, ToLE(|auth|, 1) + auth)
    ensures pos + 1 + |auth| <= |payload| && payload[pos] == |auth|
  {
    hide ToLE;
    OneByte(|auth|);
    FirstByte(payload, pos, ToLE(|auth|, 1) + auth);
  }

  lemma PartsAt(a: seq<byte>, b: seq<byte>, c: seq<byte>, d: seq<byte>, e: seq<byte>)
    ensures var all := a + b + c + d + e;
      && At(all, 0, a) && At(all, |a|, b) && At(all, |a| + |b|, c) && At(all, |a| + |b| + |c|, d)
  {
  }

  lemma Layout(r: Response)
    requires ValidResponse(r)
    ensures var payload := Encode(r);
      && |payload| >= 33 && FromLE(payload[..4]) == r.caps
      && At(payload, 32, r.user + [0])
      && At(payload, 33 + |r.user|, EncodeAuth(r.caps, r.prefix, r.auth))
      && At(payload, 33 + |r.user| + |EncodeAuth(r.caps, r.prefix, r.auth)|, EncodeDb(r))
  {
    hide EncodeAuth, EncodeDb, FromLE, ToLE, Pow256;
    var payload := Encode(r);
    var head, user := ToLE(r.caps, 4) + r.fixed, r.user + [0];
    Pow256Values();
    LERoundTrip(r.caps, 4);
    var auth := EncodeAuth(r.caps, r.prefix, r.auth);
    assert payload == head + user + auth + EncodeDb(r) + r.tail;
    PartsAt(head, user, auth, EncodeDb(r), r.tail);
    assert payload[..4] == head[..4] == ToLE(r.caps, 4);
  }

  /** Whatever the capability word, the encoding of the authentication data and the trailing bytes, the fields come
      back. */
  lemma ResponseRoundTrip(r: Response)
    requires ValidResponse(r)
    ensures Extract(Encode(r)) == Some(Fields(r.user, r.db))
  {
    hide Encode, EncodeAuth, AuthEnd, Terminator, FromLE, At, Bit, ValidAuth;
    var payload := Encode(r);
    var authAt := 33 + |r.user|;
    var dbAt := authAt + |EncodeAuth(r.caps, r.prefix, r.auth)|;
    Layout(r);
    TerminatorFound(payload, 32, r.user);
    AuthSkipped(payload, authAt, r);
    if Bit(r.caps, CONNECT_WITH_DB) {
      TerminatorFound(payload, dbAt, r.db);
    }
  }

  lemma TerminatorSplits(payload: seq<byte>, pos: nat)
    requires pos <= |payload| && Terminator(payload, pos).Some?
    ensures var end := Terminator(payload, pos).value;
      payload[pos..end + 1] == payload[pos..end] + [0] && 0 !in payload[pos..end]
  {
  }

  lemma LenencAuthOf(payload: seq<byte>, pos: nat) returns (prefix: Prefix, auth: seq<byte>)
    requires ReadInt(payload, pos).Some? && payload[pos] != 0xFE
    requires ReadInt(payload, pos).value.next + ReadInt(payload, pos).value.value <= |payload|
    ensures prefix != Eight && Encodable(Text(prefix, auth))
    ensures var l := ReadInt(payload, pos).value;
      EncodeCell(Text(prefix, auth)) == payload[pos..l.next + l.value]
  {
    hide ReadInt, ToLE, Pow256;
    var l := ReadInt(payload, pos).value;
    prefix := PrefixOf(payload, pos);
    auth := payload[l.next..l.next + l.value];
    PrefixChoice(payload, pos, prefix);
    assert payload[pos..l.next + l.value] == payload[pos..l.next] + auth;
  }

  /** Data the parser skips is authentication data in the selected encoding. */
  lemma AuthOf(payload: seq<byte>, pos: nat, caps: nat) returns (prefix: Prefix, auth: seq<byte>)
    requires pos <= |payload| && AuthEnd(payload, pos, caps).Some?
    ensures ValidAuth(caps, prefix, auth)
    ensures EncodeAuth(caps, prefix, auth) == payload[pos..AuthEnd(payload, pos, caps).value]
  {
    hide ToLE, ReadInt, Bit, EncodeCell, Encodable, Terminator;
    var end := AuthEnd(payload, pos, caps).value;
    prefix := Bare;
    if Bit(caps, PLUGIN_AUTH_LENENC) {
      prefix, auth := LenencAuthOf(payload, pos);
    } else if Bit(caps, SECURE_CONNECTION) {
      auth := payload[pos + 1..end];
      OneByte(|auth|);
      assert payload[pos..end] == [payload[pos]] + payload[pos + 1..end];
    } else {
      TerminatorSplits(payload, pos);
      auth := payload[pos..end - 1];
    }
  }

  lemma PrefixChoice(payload: seq<byte>, pos: nat, p: Prefix)
    requires ReadInt(payload, pos).Some? && payload[pos] != 0xFE
    requires var l := ReadInt(payload, pos).value; payload[pos..l.next] == Marker(p) + ToLE(l.value, Width(p))
    ensures p != Eight
  {
  }

  /** And only such payloads are accepted: what the parser returns is the user and database of some response. */
  lemma ExtractedFromResponse(payload: seq<byte>) returns (r: Response)
    requires Extract(payload).Some?
    ensures ValidResponse(r) && Encode(r) == payload && Extract(payload) == Some(Fields(r.user, r.db))
  {
    var caps := FromLE(payload[..4]);
    Pow256Values();
    LEUnique(payload[..4]);
    var userEnd := Terminator(payload, 32).value;
    TerminatorSplits(payload, 32);
    var prefix, auth := AuthOf(payload, userEnd + 1, caps);
    var authEnd := AuthEnd(payload, userEnd + 1, caps).value;
    var fixed, user := payload[4..32], payload[32..userEnd];
    hide AuthEnd, FromLE, ToLE, EncodeAuth, ValidAuth;
    if Bit(caps, CONNECT_WITH_DB) {
      var dbEnd := Terminator(payload, authEnd).value;
      TerminatorSplits(payload, authEnd);
      r := Response(caps, fixed, user, prefix, auth, payload[authEnd..dbEnd], payload[dbEnd + 1..]);
      Reassemble(payload, userEnd, authEnd, dbEnd + 1);
    } else {
      r := Response(caps, fixed, user, prefix, auth, [], payload[authEnd..]);
      Reassemble(payload, userEnd, authEnd, authEnd);
    }
  }

  lemma Reassemble(s: seq<byte>, userEnd: nat, authEnd: nat, dbEnd: nat)
    requires 32 <= userEnd < authEnd <= dbEnd <= |s| && s[userEnd] == 0
    ensures s == s[..4] + s[4..32] + s[32..userEnd] + [0] + s[userEnd + 1..authEnd] + s[authEnd..dbEnd] + s[dbEnd..]
  {
  }

  // ------------------------------------------------- stripping and the fields

  /** The payloads agree behind their capability words. */
  predicate SameBehind(a: seq<byte>, b: seq<byte>) {
    |a| == |b| && forall k :: 4 <= k < |a| ==> a[k] == b[k]
  }

  lemma SameTerminator(a: seq<byte>, b: seq<byte>, pos: nat)
    requires SameBehind(a, b) && 4 <= pos <= |a|
    ensures Terminator(a, pos) == Terminator(b, pos)
  {
    hide NulAt;
    var i, j := NulAt(a, pos), NulAt(b, pos);
    assert i < |a| ==> b[i] == 0;
    assert j < |b| ==> a[j] == 0;
  }

  lemma SameInt(a: seq<byte>, b: seq<byte>, pos: nat)
    requires SameBehind(a, b) && 4 <= pos
    ensures ReadInt(a, pos) == ReadInt(b, pos)
  {
    hide FromLE;
    if pos < |a| {
      var next := pos + 1 + (if a[pos] == 0xFC then 2 else if a[pos] == 0xFD then 3 else 8);
      assert next <= |a| ==> a[pos + 1..next] == b[pos + 1..next];
    }
  }

  lemma SameAuth(a: seq<byte>, b: seq<byte>, pos: nat, caps: nat, stripped: nat)
    requires SameBehind(a, b) && 4 <= pos <= |a|
    requires Bit(caps, PLUGIN_AUTH_LENENC) == Bit(stripped, PLUGIN_AUTH_LENENC)
    requires Bit(caps, SECURE_CONNECTION) == Bit(stripped, SECURE_CONNECTION)
    ensures AuthEnd(a, pos, caps) == AuthEnd(b, pos, stripped)
  {
    hide Bit, ReadInt, Terminator;
    SameInt(a, b, pos);
    SameTerminator(a, b, pos);
  }

  lemma StrippedBehind(payload: seq<byte>)
    requires |payload| >= 4
    ensures SameBehind(payload, StripResponse(payload))
  {
    hide StripResponse;
    ResponseStripped(payload);
    var r := StripResponse(payload);
    forall k | 4 <= k < |payload| ensures payload[k] == r[k] {
      assert payload[4..][k - 4] == r[4..][k - 4];
    }
  }

  /** The server finds the same user and database in the stripped response as the proxy in the client's own. */
  lemma ExtractUnaffected(payload: seq<byte>)
    ensures Extract(StripResponse(payload)) == Extract(payload)
  {
    hide Bit, AuthEnd, Terminator, FromLE, StripResponse;
    if |payload| >= 33 {
      var r := StripResponse(payload);
      StrippedBehind(payload);
      ResponseBits(payload, CONNECT_WITH_DB);
      ResponseBits(payload, SECURE_CONNECTION);
      ResponseBits(payload, PLUGIN_AUTH_LENENC);
      var caps, stripped := FromLE(payload[..4]), FromLE(r[..4]);
      SameTerminator(payload, r, 32);
      if Terminator(payload, 32).Some? {
        var userEnd := Terminator(payload, 32).value;
        assert payload[32..userEnd] == r[32..userEnd];
        SameAuth(payload, r, userEnd + 1, caps, stripped);
        if AuthEnd(payload, userEnd + 1, caps).Some? {
          var pos := AuthEnd(payload, userEnd + 1, caps).value;
          SameTerminator(payload, r, pos);
          assert forall end :: pos <= end <= |r| ==> payload[pos..end] == r[pos..end];
        }
      }
    }
  }
}
