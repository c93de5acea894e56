/**
 What the control socket's lookups return for every printed JSON object, and for a whole
 `policy_rollback` request.
 */
module JsonLookup {
  import opened Bytes
  import opened Slices
  import opened Decimals
  import opened JsonString
  import opened JsonScan
  import opened JsonText

  /** The number a member value denotes if it is a digit literal below 2^64. */
  function AsUint(v: Value): Option<nat> {
    if v.Atom? && (forall i :: 0 <= i < |v.text| ==> IsDigit(v.text[i])) && Decimal(v.text, 0, |v.text|) < U64
    then Some(Decimal(v.text, 0, |v.text|)) else None
  }

  /** A document: an object at the start of the text and whitespace behind it. */
  function Document(v: Value, trailing: string): string {
    Print(v) + trailing
  }

  predicate ValidDocument(v: Value, trailing: string) {
    v.Obj? && Valid(v) && AllWs(trailing)
  }

  // ------------------------------------------------------- reading placed values

  lemma PlacedDelimited(s: string, at: nat, v: Value)
    requires Placed(s, at, v)
    ensures at + |Print(v)| <= |s| && Delimited(s, at + |Print(v)|)
  {
  }

  lemma ReadsString(s: string, at: nat, v: Value)
    requires Placed(s, at, v)
    ensures ReadString(s, at) == if v.Str? then Some(Unescaped(v.raw)) else None
  {
    hide PrintElems, PrintMembers, Unescaped, Delimited;
    ValueStart(s, at, v);
    if v.Str? {
      PlacedDelimited(s, at, v);
      StrAt(s, at, v.raw);
      ClosingQuoteFound(s, at + 1, v.raw);
      assert s[at + 1..at + 1 + |v.raw|] == v.raw;
    }
  }

  lemma DecimalAt(s: string, at: nat, text: string, n: nat)
    requires At(s, at, text) && n <= |text| && forall i :: 0 <= i < n ==> IsDigit(text[i])
    ensures forall k :: at <= k < at + n ==> IsDigit(s[k])
    ensures Decimal(s, at, at + n) == Decimal(text, 0, n)
  {
    forall k | 0 <= k < n ensures s[at + k] == text[k] && IsDigit(text[k]) {
      AtChar(s, at, text, k);
    }
    DecimalSame(s, at, text, n);
  }

  /** The delimiter behind a placed value and whitespace are no digits. */
  lemma NotDigitBehind(s: string, i: nat)
    requires i < |s| && SkipWs(s, i) < |s| && s[SkipWs(s, i)] in {',', '}'}
    ensures !IsDigit(s[i])
  {
  }

  lemma ReadsUint(s: string, at: nat, v: Value)
    requires Placed(s, at, v)
    ensures ReadUint(s, at) == AsUint(v)
  {
    hide PrintElems, PrintMembers, StringEnd;
    ValueStart(s, at, v);
    if v.Atom? {
      if forall i :: 0 <= i < |v.text| ==> IsDigit(v.text[i]) {
        WholeNumber(s, at, v);
      } else if IsDigit(v.text[0]) {
        BrokenNumber(s, at, v);
      }
    }
  }

  lemma WholeNumber(s: string, at: nat, v: Value)
    requires Placed(s, at, v) && v.Atom? && forall i :: 0 <= i < |v.text| ==> IsDigit(v.text[i])
    ensures ReadUint(s, at) == AsUint(v)
  {
    var end := at + |v.text|;
    PlacedDelimited(s, at, v);
    DecimalAt(s, at, v.text, |v.text|);
    NotDigitBehind(s, end);
    DigitsFound(s, at, end);
  }

  /** A number with anything but digits behind its first digit is refused. */
  lemma BrokenNumber(s: string, at: nat, v: Value)
    requires Placed(s, at, v) && v.Atom? && IsDigit(v.text[0])
    requires !forall i :: 0 <= i < |v.text| ==> IsDigit(v.text[i])
    ensures ReadUint(s, at) == None
  {
    hide At, Decimal, DigitsEnd;
    var k := DigitsEnd(v.text, 0);
    forall i | 0 <= i <= k ensures s[at + i] == v.text[i] {
      AtChar(s, at, v.text, i);
    }
    forall i | at <= i < at + k ensures IsDigit(s[i]) {
      assert s[at + (i - at)] == v.text[i - at];
    }
    DigitsFound(s, at, at + k);
    assert AtomChar(v.text[k]) && s[at + k] == v.text[k];
    assert SkipWs(s, at + k) == at + k;
  }

  lemma ReadsObject(s: string, at: nat, v: Value)
    requires Placed(s, at, v)
    ensures ReadObject(s, at) == if v.Obj? then Some(Print(v)) else None
  {
    hide PrintElems, PrintMembers, ObjectEnd;
    ValueStart(s, at, v);
    if v.Obj? {
      EndObject(s, at, v, 0);
    }
  }

  // ------------------------------------------------------------------- lookups

  /** The scan over a whole document arrives at the first member with the key, or nowhere. */
  lemma SeekDocument(v: Value, trailing: string, arrays: bool, key: string)
    requires ValidDocument(v, trailing)
    ensures var s := Document(v, trailing);
      && s != [] && s[0] == '{'
      && match FirstMember(v.members, key)
         case None => Seek(s, 0, 0, 0, arrays, key) == None
         case Some(found) =>
           Seek(s, 0, 0, 0, arrays, key) == Some(FirstAt(1 + |v.ws|, v.members, key))
           && Placed(s, FirstAt(1 + |v.ws|, v.members, key), found)
  {
    hide Print, PrintMembers, At, Plain, Seek, Placed, AllWs, FirstMember, FirstAt;
    var s := Document(v, trailing);
    TwoParts(Print(v), trailing);
    ObjAt(s, 0, v);
    SeekInside(s, v, arrays, key);
    if FirstMember(v.members, key).None? {
      WsPlain(trailing);
      SeekPlain(s, |Print(v)|, trailing, 0, 0, arrays, key);
      SeekAtEnd(s, arrays, key);
    }
  }

  /** The scan over the object itself. */
  lemma SeekInside(s: string, v: Value, arrays: bool, key: string)
    requires v.Obj? && Valid(v) && At(s, 0, Print(v))
    ensures match FirstMember(v.members, key)
      case None => |Print(v)| <= |s| && Seek(s, 0, 0, 0, arrays, key) == Seek(s, |Print(v)|, 0, 0, arrays, key)
      case Some(found) =>
        Seek(s, 0, 0, 0, arrays, key) == Some(FirstAt(1 + |v.ws|, v.members, key))
        && Placed(s, FirstAt(1 + |v.ws|, v.members, key), found)
  {
    hide Print, PrintMembers, At, Plain, Seek, Placed, AllWs, FirstMember, FirstAt, ValidMembers;
    var body := 1 + |v.ws|;
    ObjAt(s, 0, v);
    WsPlain(v.ws);
    SeekOpenClose(s, 0, body + |PrintMembers(v.members)|, 0, 0, arrays, key);
    SeekPlain(s, 1, v.ws, 1, 0, arrays, key);
    SeekTopMembers(s, body, v.members, arrays, key);
  }

  lemma TwoParts(a: string, b: string)
    ensures At(a + b, 0, a) && At(a + b, |a|, b)
  {
  }

  lemma SeekAtEnd(s: string, arrays: bool, key: string)
    ensures Seek(s, |s|, 0, 0, arrays, key) == None
  {
  }

  /**
   For every JSON object, however laid out, each lookup answers for exactly the first top-level member
   with that key: the same text inside strings, arrays or nested objects is never taken for it.
   */
  lemma LookupsFindFirstMember(v: Value, trailing: string, key: string)
    requires ValidDocument(v, trailing)
    ensures var found := FirstMember(v.members, key);
      var s := Document(v, trailing);
      && StringField(s, key) == (if found.Some? && found.value.Str? then Some(Unescaped(found.value.raw)) else None)
      && UintField(s, key) == (if found.Some? then AsUint(found.value) else None)
      && ObjectField(s, key) == (if found.Some? && found.value.Obj? then Some(Print(found.value)) else None)
  {
    hide Print, Seek, Document, ReadString, ReadUint, ReadObject, Unescaped, AsUint, Placed;
    SeekDocument(v, trailing, true, key);
    SeekDocument(v, trailing, false, key);
    if FirstMember(v.members, key).Some? {
      var s, at := Document(v, trailing), FirstAt(1 + |v.ws|, v.members, key);
      var found := FirstMember(v.members, key).value;
      ReadsString(s, at, found);
      ReadsUint(s, at, found);
      ReadsObject(s, at, found);
    }
  }

  /** The number a request carries under `key` in its top-level `payload` object, by the tree alone. */
  function PayloadNumber(v: Value, key: string): Option<nat>
    requires v.Obj?
  {
    match FirstMember(v.members, "payload")
    case Some(Obj(_, members)) => (
      match FirstMember(members, key) case Some(n) => AsUint(n) case None => None)
    case _ => None
  }

  /** A request's target version is read exactly when the payload member is a digit literal below 2^64. */
  lemma PayloadLookupExact(v: Value, trailing: string, key: string)
    requires ValidDocument(v, trailing)
    ensures PayloadUint(Document(v, trailing), key) == PayloadNumber(v, key)
  {
    hide StringField, UintField, ObjectField, Print, AsUint;
    LookupsFindFirstMember(v, trailing, "payload");
    var found := FirstMember(v.members, "payload");
    if found.Some? && found.value.Obj? {
      MembersValid(v.members, "payload");
      LookupsFindFirstMember(found.value, "", key);
      assert Document(found.value, "") == Print(found.value);
    }
  }

  lemma {:induction false} MembersValid(m: Members, key: string)
    requires ValidMembers(m) && FirstMember(m, key).Some?
    ensures Valid(FirstMember(m, key).value)
    decreases m
  {
    hide Valid;
    if m.key != key { MembersValid(m.tail, key); }
  }
}
