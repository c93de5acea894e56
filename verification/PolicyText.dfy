/**
 The texts a policy file carries and how the engine reads them (`src/policy/policy_engine.cpp`):
 numbers by `std::stoi`, address blocks, and daily time windows.
 */
module PolicyText {
  import opened Bytes
  import opened Text
  import opened Decimals
  import opened Cidr

  // ------------------------------------------------------------------ library calls

  datatype Number = Number(value: int, used: nat)

  /** `std::stoi`: blanks, a sign, digits; `None` where it throws. `used` is the index it reports. */
  function Stoi(s: string): Option<Number> {
    var i := SkipSpaces(s, 0);
    var signed := i < |s| && (s[i] == '-' || s[i] == '+');
    var d := if signed then i + 1 else i;
    var e := DigitsEnd(s, d);
    var n := Decimal(s, d, e);
    var v: int := if signed && s[i] == '-' then -(n as int) else n;
    if e == d || v < -0x8000_0000 || v > 0x7fff_ffff then None else Some(Number(v, e))
  }

  /** `iequals` */
  predicate IEquals(a: string, b: string) {
    |a| == |b| && forall i :: 0 <= i < |a| ==> Lower(a[i]) == Lower(b[i])
  }

  // ---------------------------------------------------------------- address blocks

  /** What the engine learns from outside: regular expressions, `inet_pton`, the clock, the byte order. */
  datatype Match = NotCompiled | NoMatch | Matches

  type minute = m: nat | m < 1440

  datatype Env = Env(regex: (string, string) -> Match, address: string -> Option<Ipv4>,
                     clock: string -> Option<minute>, littleEndian: bool)

  /** `ip_in_cidr`; every malformed input is outside the block. */
  predicate IpInCidr(ip: string, cidr: string, env: Env) {
    var slash := Find(cidr, '/', 0);
    slash < |cidr| &&
    var prefix := Stoi(cidr[slash + 1..]);
    && prefix.Some? && prefix.value.used == |cidr| - slash - 1 && 0 <= prefix.value.value <= 32
    && env.address(ip).Some? && env.address(cidr[..slash]).Some?
    && InBlock(env.address(ip).value, env.address(cidr[..slash]).value, prefix.value.value, env.littleEndian)
  }

  // ------------------------------------------------------------------ time windows

  datatype Clock = Clock(hour: nat, min: nat)

  datatype TimeRange = TimeRange(start: Clock, end: Clock)

  function Minutes(c: Clock): nat {
    c.hour * 60 + c.min
  }

  /** `parse_hhmm`: each number may be followed by anything, as `stoi` stops at the first non-digit. */
  function ParseClock(s: string): (r: Option<Clock>)
    ensures r.Some? ==> Minutes(r.value) < 1440
  {
    var colon := Find(s, ':', 0);
    if colon == |s| then None
    else
      var h, m := Stoi(s[..colon]), Stoi(s[colon + 1..]);
      if h.Some? && m.Some? && 0 <= h.value.value <= 23 && 0 <= m.value.value <= 59
      then Some(Clock(h.value.value, m.value.value)) else None
  }

  /** `parse_time_range` */
  function ParseTimeRange(s: string): (r: Option<TimeRange>)
    ensures r.Some? ==> Minutes(r.value.start) < 1440 && Minutes(r.value.end) < 1440
  {
    if |s| < 7 then None
    else
      var dash := Find(s, '-', 1);
      if dash == |s| then None
      else
        var a, b := ParseClock(s[..dash]), ParseClock(s[dash + 1..]);
        if a.Some? && b.Some? then Some(TimeRange(a.value, b.value)) else None
  }

  /** The local time of a zone, an empty one standing for UTC. */
  function LocalTime(zone: string, env: Env): Option<minute> {
    env.clock(if zone == "" then "Etc/UTC" else zone)
  }

  /** `is_within_time_range`: an unknown zone is outside every window. */
  predicate WithinTimeRange(range: TimeRange, zone: string, env: Env) {
    var now := LocalTime(zone, env);
    now.Some? &&
    var start, end := Minutes(range.start), Minutes(range.end);
    if start <= end then start <= now.value < end else start <= now.value || now.value < end
  }

  // -------------------------------------------------------------------- meanings

  /** Blanks up to `b`, at most a sign up to `d`, and digits up to `e` that make the number `v`. */
  predicate NumberAt(s: string, b: nat, d: nat, e: nat, v: int) {
    && b <= d < e <= |s|
    && (forall k :: 0 <= k < b ==> IsSpace(s[k]))
    && (d == b || (d == b + 1 && (s[b] == '+' || s[b] == '-')))
    && (forall k :: d <= k < e ==> IsDigit(s[k])) && (e < |s| ==> !IsDigit(s[e]))
    && v == if d > b && s[b] == '-' then -(Decimal(s, d, e) as int) else Decimal(s, d, e)
  }

  /** The text starts with a number: blanks, a sign if there is one, and all digits up to `e`. */
  ghost predicate Denotes(s: string, v: int, e: nat) {
    exists b: nat, d: nat :: NumberAt(s, b, d, e, v)
  }

  /** `stoi` returns exactly the numbers that texts start with, as far as they fit an `int`. */
  lemma StoiExact(s: string, v: int, e: nat)
    ensures Stoi(s) == Some(Number(v, e)) <==> Denotes(s, v, e) && -0x8000_0000 <= v <= 0x7fff_ffff
  {
    hide Decimal, SkipSpaces, DigitsEnd;
    var i := SkipSpaces(s, 0);
    var j := if i < |s| && (s[i] == '-' || s[i] == '+') then i + 1 else i;
    if Stoi(s) == Some(Number(v, e)) {
      assert NumberAt(s, i, j, e, v);
    }
    if b: nat, d: nat :| NumberAt(s, b, d, e, v) {
      NumberStart(s, b, d, e, v);
      DigitsFound(s, d, e);
    }
  }

  lemma NumberStart(s: string, b: nat, d: nat, e: nat, v: int)
    requires NumberAt(s, b, d, e, v)
    ensures SkipSpaces(s, 0) == b && (s[b] == '-' || s[b] == '+' <==> d == b + 1)
  {
    hide Decimal, SkipSpaces;
    assert IsDigit(s[d]);
    assert !IsSpace(s[b]);
  }

  lemma FindsFirst(a: string, c: char, b: string, from: nat)
    requires from <= |a| && forall k :: from <= k < |a| ==> a[k] != c
    ensures Find(a + [c] + b, c, from) == |a|
    ensures (a + [c] + b)[..|a|] == a && (a + [c] + b)[|a| + 1..] == b
  {
    hide Find;
    var s := a + [c] + b;
    var i := Find(s, c, from);
    assert s[|a|] == c;
    assert forall k :: from <= k < |a| ==> s[k] == a[k];
    assert i >= |a|;
  }

  lemma SplitAt(s: string, c: char, from: nat)
    requires from <= |s| && Find(s, c, from) < |s|
    ensures var i := Find(s, c, from); s == s[..i] + [c] + s[i + 1..] && forall k :: from <= k < i ==> s[..i][k] != c
  {
    hide Find;
  }

  /** A block as a policy writes it: an address, the first slash, and a number that is all the rest. */
  ghost predicate BlockWritten(cidr: string, net: string, number: string, prefix: nat) {
    cidr == net + ['/'] + number && '/' !in net && Denotes(number, prefix, |number|)
  }

  /** For every text, `ip_in_cidr` holds exactly if the text is a block of at most 32 bits whose address, like the
      client's, is IPv4 and agrees with it in the leading bits. */
  lemma CidrMeaning(ip: string, cidr: string, env: Env)
    ensures IpInCidr(ip, cidr, env) <==>
      exists net, number, p: nat :: BlockWritten(cidr, net, number, p) && Covers(ip, net, p, env)
  {
    hide Stoi, Denotes, SameNetwork, InBlock, Find;
    if IpInCidr(ip, cidr, env) {
      var slash := Find(cidr, '/', 0);
      var net, number := cidr[..slash], cidr[slash + 1..];
      var p: nat := Stoi(number).value.value;
      SplitAt(cidr, '/', 0);
      StoiExact(number, p, |number|);
      BlockMeaning(env.address(ip).value, env.address(net).value, p, env.littleEndian);
      assert BlockWritten(cidr, net, number, p) && Covers(ip, net, p, env);
    }
    if net, number, p: nat :| BlockWritten(cidr, net, number, p) && Covers(ip, net, p, env) {
      FindsFirst(net, '/', number, 0);
      StoiExact(number, p, |number|);
      BlockMeaning(env.address(ip).value, env.address(net).value, p, env.littleEndian);
    }
  }

  predicate Covers(ip: string, net: string, prefix: nat, env: Env) {
    && prefix <= 32 && env.address(ip).Some? && env.address(net).Some?
    && SameNetwork(env.address(ip).value, env.address(net).value, prefix)
  }

  /** The text starts with a number from 0 to `max`; what follows it does not matter. */
  ghost predicate Starts(s: string, v: nat, max: nat) {
    v <= max && exists e: nat :: Denotes(s, v, e)
  }

  /** A time of day as a policy writes it: hour, the first colon, minute. */
  ghost predicate ClockWritten(s: string, c: Clock) {
    exists h, m :: IsClock(s, h, m, c)
  }

  ghost predicate IsClock(s: string, h: string, m: string, c: Clock) {
    s == h + [':'] + m && ':' !in h && Starts(h, c.hour, 23) && Starts(m, c.min, 59)
  }

  lemma StartsExactly(s: string, v: nat, max: nat)
    requires max <= 59
    ensures Starts(s, v, max) <==> Stoi(s).Some? && Stoi(s).value.value == v <= max
  {
    hide Stoi, Denotes;
    if Stoi(s).Some? && Stoi(s).value.value == v <= max {
      StoiExact(s, v, Stoi(s).value.used);
    }
    if e: nat :| Denotes(s, v, e) {
      StoiExact(s, v, e);
    }
  }

  lemma ClockRead(s: string, c: Clock)
    ensures ParseClock(s) == Some(c) <==> ClockWritten(s, c)
  {
    hide Stoi, Starts, Find;
    if ParseClock(s) == Some(c) {
      var colon := Find(s, ':', 0);
      SplitAt(s, ':', 0);
      StartsExactly(s[..colon], c.hour, 23);
      StartsExactly(s[colon + 1..], c.min, 59);
      assert IsClock(s, s[..colon], s[colon + 1..], c);
    }
    if h, m :| IsClock(s, h, m, c) {
      FindsFirst(h, ':', m, 0);
      StartsExactly(h, c.hour, 23);
      StartsExactly(m, c.min, 59);
    }
  }

  /** A window as a policy writes it, in at least seven characters: a time, the first dash behind the first character,
      and a time. */
  ghost predicate RangeWritten(s: string, r: TimeRange) {
    |s| >= 7 && exists x, y :: IsRange(s, x, y, r)
  }

  ghost predicate IsRange(s: string, x: string, y: string, r: TimeRange) {
    s == x + ['-'] + y && x != "" && '-' !in x[1..] && ClockWritten(x, r.start) && ClockWritten(y, r.end)
  }

  /** For every text, the window read is exactly the one written, if one is written. */
  lemma RangeRead(s: string, r: TimeRange)
    ensures ParseTimeRange(s) == Some(r) <==> RangeWritten(s, r)
  {
    hide ParseClock, ClockWritten, Find;
    if ParseTimeRange(s) == Some(r) {
      var dash := Find(s, '-', 1);
      SplitAt(s, '-', 1);
      ClockRead(s[..dash], r.start);
      ClockRead(s[dash + 1..], r.end);
      assert forall k :: 0 <= k < dash - 1 ==> s[..dash][1..][k] == s[..dash][k + 1];
      assert IsRange(s, s[..dash], s[dash + 1..], r);
    }
    if |s| >= 7 {
      if x, y :| IsRange(s, x, y, r) {
        forall k | 1 <= k < |x| ensures x[k] != '-' {
          assert x[1..][k - 1] == x[k];
        }
        FindsFirst(x, '-', y, 1);
        ClockRead(x, r.start);
        ClockRead(y, r.end);
      }
    }
  }

  /** The minutes from `start` on, around midnight, that have passed at `now` are fewer than those up to `end`. */
  predicate OnArc(range: TimeRange, now: minute) {
    (now as int - Minutes(range.start)) % 1440 < (Minutes(range.end) as int - Minutes(range.start)) % 1440
  }

  /** A window is an arc of the day. One that ends where it starts is empty. */
  lemma WindowIsArc(range: TimeRange, zone: string, env: Env)
    requires Minutes(range.start) < 1440 && Minutes(range.end) < 1440
    ensures WithinTimeRange(range, zone, env)
       <==> LocalTime(zone, env).Some? && OnArc(range, LocalTime(zone, env).value)
  {
    hide Minutes;
    var now := LocalTime(zone, env);
    if now.Some? {
      ArcOf(now.value, Minutes(range.start), Minutes(range.end));
    }
  }

  lemma ArcOf(now: int, start: int, end: int)
    requires 0 <= now < 1440 && 0 <= start < 1440 && 0 <= end < 1440
    ensures (if start <= end then start <= now < end else start <= now || now < end)
       <==> (now - start) % 1440 < (end - start) % 1440
  {
    Around(now - start);
    Around(end - start);
  }

  lemma Around(x: int)
    requires -1440 < x < 1440
    ensures x % 1440 == if x < 0 then x + 1440 else x
  {
  }

  /** The same character, or the same letter of the Latin alphabet in the other case. */
  predicate SameLetter(c: char, d: char) {
    || c == d
    || ('a' <= c <= 'z' && d as int == c as int - 32)
    || ('A' <= c <= 'Z' && d as int == c as int + 32)
  }

  predicate SameText(a: string, b: string) {
    |a| == |b| && forall i :: 0 <= i < |a| ==> SameLetter(a[i], b[i])
  }

  /** `iequals` ignores the case of letters, and nothing else. */
  lemma IEqualsMeaning(a: string, b: string)
    ensures IEquals(a, b) <==> SameText(a, b)
  {
    forall c: char, d: char ensures Lower(c) == Lower(d) <==> SameLetter(c, d) {
      LowerMeaning(c, d);
    }
    hide Lower, SameLetter;
  }

  lemma LowerMeaning(c: char, d: char)
    ensures Lower(c) == Lower(d) <==> SameLetter(c, d)
  {
  }
}
