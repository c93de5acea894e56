/**
 Snapshot file names of the policy version store (`src/policy/policy_version_store.cpp`):
 `v{version}_{timestamp}.yaml`, written by a save and read back by the directory scan of a restart.
 */
module SnapshotName {
  import opened Bytes
  import opened Decimals

  const SUFFIX := ".yaml"

  /** The name a save gives its snapshot. */
  function FileName(version: nat, timestamp: string): string {
    "v" + Numeral(version) + "_" + timestamp + SUFFIX
  }

  datatype Snapshot = Snapshot(version: nat, timestamp: string)

  /** Timestamps the name pattern can carry: not empty and without line breaks. */
  predicate GoodTimestamp(ts: string) {
    ts != [] && '\n' !in ts && '\r' !in ts
  }

  /** `parse_snapshot_filename` on a stem: the pattern `v` digits `_` text, the digits below 2^64. */
  function ParseStem(stem: string): (r: Option<Snapshot>)
    ensures r.Some? ==> 0 < r.value.version < U64
  {
    if stem == [] || stem[0] != 'v' then None
    else
      var e := DigitsEnd(stem, 1);
      if e == 1 || e == |stem| || stem[e] != '_' || !GoodTimestamp(stem[e + 1..]) then None
      else
        var version := Decimal(stem, 1, e);
        if version == 0 || version >= U64 then None else Some(Snapshot(version, stem[e + 1..]))
  }

  /** A directory entry the scan recognizes. */
  function ParseFile(file: string): (r: Option<Snapshot>)
    ensures r.Some? ==> 0 < r.value.version < U64
  {
    if |file| < |SUFFIX| || file[|file| - |SUFFIX|..] != SUFFIX then None
    else ParseStem(file[..|file| - |SUFFIX|])
  }

  lemma StemParts(d: string, timestamp: string)
    ensures var stem := "v" + d + "_" + timestamp;
      && |stem| == 2 + |d| + |timestamp| && stem[0] == 'v' && stem[1 + |d|] == '_' && stem[2 + |d|..] == timestamp
      && forall k :: 0 <= k < |d| ==> stem[1 + k] == d[k]
  {
  }

  lemma StemRead(d: string, timestamp: string)
    requires |d| >= 1 && AllDigits(d)
    ensures ParseStem("v" + d + "_" + timestamp) ==
      var version := Decimal(d, 0, |d|);
      if GoodTimestamp(timestamp) && 0 < version < U64 then Some(Snapshot(version, timestamp)) else None
  {
    hide ParseStem, Decimal, DigitsEnd, GoodTimestamp, IsDigit;
    var stem := "v" + d + "_" + timestamp;
    StemParts(d, timestamp);
    DecimalSame(stem, 1, d, |d|);
    StemCut(stem, 1 + |d|);
  }

  // A stem whose digits end at an underscore is read in two parts.
  lemma StemCut(stem: string, e: nat)
    requires 1 < e < |stem| && stem[0] == 'v' && stem[e] == '_'
    requires forall k :: 1 <= k < e ==> IsDigit(stem[k])
    ensures ParseStem(stem) ==
      var version := Decimal(stem, 1, e);
      if GoodTimestamp(stem[e + 1..]) && 0 < version < U64 then Some(Snapshot(version, stem[e + 1..])) else None
  {
    hide Decimal, DigitsEnd, GoodTimestamp;
    DigitsFound(stem, 1, e);
  }

  /** The scan reads back exactly what a save wrote if the timestamp is neither empty nor broken into lines, and does
      not recognize the file otherwise. */
  lemma FileNameRoundTrip(version: nat, timestamp: string)
    requires 0 < version < U64
    ensures ParseFile(FileName(version, timestamp)) ==
      if GoodTimestamp(timestamp) then Some(Snapshot(version, timestamp)) else None
  {
    hide Decimal, Numeral, GoodTimestamp, ParseStem;
    var stem := "v" + Numeral(version) + "_" + timestamp;
    NumeralRoundTrip(version);
    StemRead(Numeral(version), timestamp);
    SuffixCut(stem);
  }

  lemma SuffixCut(stem: string)
    ensures ParseFile(stem + SUFFIX) == ParseStem(stem)
  {
    hide ParseStem;
    var file := stem + SUFFIX;
    assert file[|stem|..] == SUFFIX && file[..|stem|] == stem;
  }

  /** A name as it stands in the directory. */
  lemma NameInDirectory(timestamp: string)
    ensures FileName(7, timestamp) == "v7_" + timestamp + ".yaml"
  {
    assert Numeral(7) == "7";
    assert "v" + "7" + "_" == "v7_";
  }
}
