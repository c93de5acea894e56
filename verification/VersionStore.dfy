/**
 The policy version store (`src/policy/policy_version_store.cpp`): snapshots saved as files, old ones
 pruned, and the list rebuilt from the directory at every start.
 */
module VersionStore {
  import opened Bytes
  import opened SnapshotName

  type Content = seq<byte>
  type Directory = map<string, Content>

  datatype Meta = Meta(version: nat, timestamp: string, rules: nat, hash: string, file: string)

  // --------------------------------------------------------- effect of each operation

  /** The files of the entries `gone` that can be deleted; those in `stuck` cannot. */
  function Removable(gone: seq<Meta>, stuck: set<string>): set<string> {
    if gone == [] then {}
    else
      var last := gone[|gone| - 1].file;
      Removable(gone[..|gone| - 1], stuck) + (if last in stuck then {} else {last})
  }

  function Deleted(files: Directory, gone: seq<Meta>, stuck: set<string>): Directory {
    files - Removable(gone, stuck)
  }

  /** How many of `n` versions exceed the limit. */
  function Excess(n: nat, max: nat): nat {
    if n > max then n - max else 0
  }

  /** One attempt to save: what the clock, the file copy and the hash give, what a failed copy leaves behind, and which
      deletions fail. */
  datatype Attempt = Attempt(content: Content, timestamp: string, rules: nat, hash: string,
                             sourceExists: bool, copyOk: bool, left: Option<Content>, stuck: set<string>)

  predicate Succeeds(a: Attempt) {
    a.sourceExists && a.copyOk
  }

  /** The timestamp can be read back, and a copy that fails leaves no file. */
  predicate Clean(a: Attempt) {
    GoodTimestamp(a.timestamp) && (a.copyOk || a.left.None?)
  }

  /** Every entry is a recognized file; rule count and hash are not kept in the directory. */
  predicate EntriesOk(files: Directory, versions: seq<Meta>) {
    forall i :: 0 <= i < |versions| ==>
      && versions[i].file in files
      && versions[i].rules == 0 && versions[i].hash == ""
      && ParseFile(versions[i].file) == Some(Snapshot(versions[i].version, versions[i].timestamp))
  }

  predicate Complete(files: Directory, versions: seq<Meta>) {
    forall f :: f in files && ParseFile(f).Some? ==> exists i :: 0 <= i < |versions| && versions[i].file == f
  }

  predicate Sorted(versions: seq<Meta>) {
    forall i, j :: 0 <= i < j < |versions| ==>
      versions[i].version <= versions[j].version && versions[i].file != versions[j].file
  }

  /** `versions` lists the recognized files of the directory, each once, oldest version first. */
  predicate IsScan(files: Directory, versions: seq<Meta>) {
    EntriesOk(files, versions) && Complete(files, versions) && Sorted(versions)
  }

  function NextAfter(versions: seq<Meta>): nat {
    if versions == [] then 1 else (versions[|versions| - 1].version + 1) % U64
  }

  /** The store as a value: the directory, the list of live versions and the next number. */
  datatype Store = Store(files: Directory, versions: seq<Meta>, next: nat)

  function NewMeta(s: Store, a: Attempt): Meta {
    Meta(s.next, a.timestamp, a.rules, a.hash, FileName(s.next, a.timestamp))
  }

  /** The effect of a save; one that fails changes neither the list nor the next number. */
  function Save(s: Store, max: nat, a: Attempt): Store {
    if !a.sourceExists then s
    else if !a.copyOk then
      if a.left.None? then s else s.(files := s.files[NewMeta(s, a).file := a.left.value])
    else
      var all := s.versions + [NewMeta(s, a)];
      var cut := Excess(|all|, max);
      Store(Deleted(s.files[NewMeta(s, a).file := a.content], all[..cut], a.stuck), all[cut..], (s.next + 1) % U64)
  }

  // -------------------------------------------------------------------- the store

  class PolicyVersionStore {
    const max: nat
    var files: Directory
    var versions: seq<Meta>
    var next: nat

    function View(): Store
      reads this
    {
      Store(files, versions, next)
    }

    /** Start-up: scan the directory in whatever order it lists, then sort by version. */
    constructor (directory: Directory, maxVersions: nat)
      ensures max == maxVersions && files == directory
      ensures IsScan(directory, versions) && next == NextAfter(versions)
    {
      max, files := maxVersions, directory;
      var found := ScanDirectory(directory);
      versions := found;
      next := NextAfter(found);
    }

    /** `save_snapshot` */
    method SaveSnapshot(a: Attempt) returns (r: Option<Meta>)
      modifies this
      ensures View() == Save(old(View()), max, a)
      ensures r == if Succeeds(a) then Some(NewMeta(old(View()), a)) else None
    {
      if !a.sourceExists {
        return None;
      }
      var file := FileName(next, a.timestamp);
      if !a.copyOk {
        if a.left.Some? {
          files := files[file := a.left.value];
        }
        return None;
      }
      files := files[file := a.content];
      var meta := Meta(next, a.timestamp, a.rules, a.hash, file);
      versions := versions + [meta];
      next := (next + 1) % U64;
      Prune(a.stuck);
      return Some(meta);
    }

    /** `prune`: the oldest entry goes, with its file if that can be deleted, until the limit is met. */
    method Prune(stuck: set<string>)
      modifies this`files, this`versions
      ensures versions == old(versions)[Excess(|old(versions)|, max)..]
      ensures files == Deleted(old(files), old(versions)[..Excess(|old(versions)|, max)], stuck)
    {
      ghost var all, before := versions, files;
      ghost var n := 0;
      while |versions| > max
        invariant n <= Excess(|all|, max) && versions == all[n..]
        invariant files == Deleted(before, all[..n], stuck)
        decreases |versions|
      {
        var oldest := versions[0];
        DeletedStep(before, all, n, stuck);
        if oldest.file !in stuck {
          files := files - {oldest.file};
        }
        versions := versions[1..];
        n := n + 1;
      }
    }

    /** `load_snapshot` up to the parser: the bytes kept for a version, or nothing. */
    method LoadSnapshot(version: nat) returns (content: Option<Content>)
      ensures content == Stored(files, versions, version)
    {
      var i := 0;
      while i < |versions|
        invariant 0 <= i <= |versions|
        invariant Stored(files, versions, version) == Stored(files, versions[i..], version)
      {
        assert versions[i..][1..] == versions[i + 1..];
        if versions[i].version == version {
          if versions[i].file !in files {
            return None;
          }
          return Some(files[versions[i].file]);
        }
        i := i + 1;
      }
      return None;
    }

    method CurrentVersion() returns (v: nat)
      ensures v == if versions == [] then 0 else versions[|versions| - 1].version
    {
      return if versions == [] then 0 else versions[|versions| - 1].version;
    }
  }

  /** The content of the first entry with that version, if its file is still there. */
  function Stored(files: Directory, versions: seq<Meta>, version: nat): Option<Content> {
    if versions == [] then None
    else if versions[0].version == version then
      if versions[0].file in files then Some(files[versions[0].file]) else None
    else Stored(files, versions[1..], version)
  }

  lemma DeletedStep(files: Directory, all: seq<Meta>, n: nat, stuck: set<string>)
    requires n < |all|
    ensures Deleted(files, all[..n + 1], stuck)
         == Deleted(files, all[..n], stuck) - (if all[n].file in stuck then {} else {all[n].file})
  {
    assert all[..n + 1][..n] == all[..n];
  }

  // -------------------------------------------------------------- directory scan

  /** The loop over the directory entries, in any order, and the sort behind it. */
  method ScanDirectory(files: Directory) returns (versions: seq<Meta>)
    ensures IsScan(files, versions)
  {
    var todo := files.Keys;
    versions := [];
    while todo != {}
      invariant todo <= files.Keys
      invariant IsScan(files - todo, versions)
      decreases |todo|
    {
      var f :| f in todo;
      var parts := ParseFile(f);
      if parts.Some? {
        var meta := Meta(parts.value.version, parts.value.timestamp, 0, "", f);
        var k := Slot(versions, meta.version);
        ScanAdds(files, todo, f, versions, meta, k);
        versions := versions[..k] + [meta] + versions[k..];
      } else {
        assert forall g :: g in files - (todo - {f}) <==> g in files - todo || g == f;
      }
      todo := todo - {f};
    }
    assert files - {} == files;
  }

  /** Where an entry goes in the sorted list: behind every version not above its own. */
  function Slot(versions: seq<Meta>, version: nat): (k: nat)
    ensures k <= |versions| && (k < |versions| ==> version < versions[k].version)
    ensures forall i :: 0 <= i < k ==> versions[i].version <= version
  {
    if versions == [] || version < versions[0].version then 0
    else
      assert forall i :: 0 < i < |versions| ==> versions[i] == versions[1..][i - 1];
      1 + Slot(versions[1..], version)
  }

  lemma ScanAdds(files: Directory, todo: set<string>, f: string, versions: seq<Meta>, m: Meta, k: nat)
    requires f in todo && todo <= files.Keys && IsScan(files - todo, versions)
    requires m.file == f && ParseFile(f) == Some(Snapshot(m.version, m.timestamp)) && m.rules == 0 && m.hash == ""
    requires k <= |versions| && (k < |versions| ==> m.version < versions[k].version)
    requires forall i :: 0 <= i < k ==> versions[i].version <= m.version
    ensures IsScan(files - (todo - {f}), versions[..k] + [m] + versions[k..])
  {
    hide ParseFile;
    var r := versions[..k] + [m] + versions[k..];
    var after := files - (todo - {f});
    Inserted(versions, m, k);
    assert forall g :: g in after <==> g in files - todo || g == f;
    assert EntriesOk(after, r);
    InsertedComplete(files - todo, after, f, versions, m, k);
    InsertedSorted(versions, m, k);
  }

  lemma Inserted(versions: seq<Meta>, m: Meta, k: nat)
    requires k <= |versions|
    ensures var r := versions[..k] + [m] + versions[k..];
      && |r| == |versions| + 1 && r[k] == m
      && (forall i :: 0 <= i < k ==> r[i] == versions[i])
      && (forall i :: k < i < |r| ==> r[i] == versions[i - 1])
  {
  }

  lemma InsertedComplete(before: Directory, after: Directory, f: string, versions: seq<Meta>, m: Meta, k: nat)
    requires k <= |versions| && Complete(before, versions) && m.file == f
    requires forall g :: g in after ==> g in before || g == f
    ensures Complete(after, versions[..k] + [m] + versions[k..])
  {
    hide ParseFile;
    var r := versions[..k] + [m] + versions[k..];
    Inserted(versions, m, k);
    forall g | g in after && ParseFile(g).Some? ensures exists i :: 0 <= i < |r| && r[i].file == g {
      if g == f {
        assert r[k].file == g;
      } else {
        var i :| 0 <= i < |versions| && versions[i].file == g;
        assert r[if i < k then i else i + 1] == versions[i];
      }
    }
  }

  lemma InsertedSorted(versions: seq<Meta>, m: Meta, k: nat)
    requires k <= |versions| && Sorted(versions) && (k < |versions| ==> m.version < versions[k].version)
    requires forall i :: 0 <= i < k ==> versions[i].version <= m.version
    requires forall i :: 0 <= i < |versions| ==> versions[i].file != m.file
    ensures Sorted(versions[..k] + [m] + versions[k..])
  {
  }

  // ------------------------------------------------------------------- whole runs

  predicate Recognized(files: Directory, f: string) {
    f in files && ParseFile(f).Some?
  }

  function VersionOf(f: string): nat
    requires ParseFile(f).Some?
  {
    ParseFile(f).value.version
  }

  ghost predicate Distinct(files: Directory) {
    forall f, g :: Recognized(files, f) && Recognized(files, g) && VersionOf(f) == VersionOf(g) ==> f == g
  }

  predicate StrictlyIncreasing(versions: seq<Meta>) {
    forall i, j :: 0 <= i < j < |versions| ==> versions[i].version < versions[j].version
  }

  /** Every listed version is a file of the directory under its own name. */
  predicate Listed(s: Store) {
    forall i :: 0 <= i < |s.versions| ==>
      && Recognized(s.files, s.versions[i].file)
      && ParseFile(s.versions[i].file) == Some(Snapshot(s.versions[i].version, s.versions[i].timestamp))
  }

  /** Every recognized file was issued before `next` and still holds the bytes saved under its number. */
  ghost predicate Faithful(files: Directory, next: nat, history: map<nat, Content>) {
    forall f :: Recognized(files, f) ==>
      VersionOf(f) < next && VersionOf(f) in history && history[VersionOf(f)] == files[f]
  }

  /** The newest version issued is live and on disk, so that a restart finds it. */
  predicate NewestKept(s: Store) {
    && 1 <= s.next < U64
    && if s.next == 1 then s.versions == [] else s.versions != [] && s.versions[|s.versions| - 1].version == s.next - 1
  }

  /** The invariant of a run; `history` records the bytes of every version ever saved. */
  ghost predicate Inv(s: Store, history: map<nat, Content>) {
    && StrictlyIncreasing(s.versions) && Listed(s) && Distinct(s.files)
    && Faithful(s.files, s.next, history) && NewestKept(s)
    && forall v :: v in history ==> 1 <= v < s.next
  }

  function Recorded(s: Store, a: Attempt, history: map<nat, Content>): map<nat, Content> {
    if Succeeds(a) then history[s.next := a.content] else history
  }

  lemma NewFile(s: Store, a: Attempt)
    requires 1 <= s.next < U64 && GoodTimestamp(a.timestamp)
    ensures var m := NewMeta(s, a);
      ParseFile(m.file) == Some(Snapshot(m.version, m.timestamp)) && VersionOf(m.file) == s.next
  {
    FileNameRoundTrip(s.next, a.timestamp);
  }

  lemma {:induction false} RemovableFiles(gone: seq<Meta>, stuck: set<string>, f: string)
    requires f in Removable(gone, stuck)
    ensures exists i :: 0 <= i < |gone| && gone[i].file == f
  {
    var n := |gone| - 1;
    if gone[n].file != f {
      RemovableFiles(gone[..n], stuck, f);
      var i :| 0 <= i < |gone[..n]| && gone[..n][i].file == f;
      assert gone[i].file == f;
    }
  }

  lemma AppendFiles(s: Store, a: Attempt, history: map<nat, Content>)
    requires Distinct(s.files) && Faithful(s.files, s.next, history) && 1 <= s.next < U64 && GoodTimestamp(a.timestamp)
    ensures var m := NewMeta(s, a);
      var files := s.files[m.file := a.content];
      && m.file !in s.files && Recognized(files, m.file) && Distinct(files)
      && Faithful(files, s.next + 1, history[s.next := a.content])
  {
    hide ParseFile, FileName, GoodTimestamp;
    NewFile(s, a);
    var m := NewMeta(s, a);
    assert m.file !in s.files by {
      assert !Recognized(s.files, m.file);
    }
    assert forall f :: Recognized(s.files[m.file := a.content], f) <==> Recognized(s.files, f) || f == m.file;
  }

  lemma AppendList(s: Store, a: Attempt)
    requires StrictlyIncreasing(s.versions) && Listed(s) && NewestKept(s) && GoodTimestamp(a.timestamp)
    ensures var m := NewMeta(s, a);
      var t := Store(s.files[m.file := a.content], s.versions + [m], s.next + 1);
      StrictlyIncreasing(t.versions) && Listed(t)
  {
    hide ParseFile, FileName, GoodTimestamp;
    NewFile(s, a);
    VersionsBelow(s);
    var m := NewMeta(s, a);
    var t := Store(s.files[m.file := a.content], s.versions + [m], s.next + 1);
    assert forall i :: 0 <= i < |s.versions| ==> t.versions[i] == s.versions[i];
  }

  /** The list with the new entry, before anything is pruned. */
  lemma AppendKeeps(s: Store, a: Attempt, history: map<nat, Content>)
    requires Inv(s, history) && GoodTimestamp(a.timestamp) && s.next + 1 < U64
    ensures var m := NewMeta(s, a);
      var t := Store(s.files[m.file := a.content], s.versions + [m], s.next + 1);
      Inv(t, history[s.next := a.content]) && m.file !in s.files
  {
    hide FileName, Recognized, Distinct, Faithful, Listed, StrictlyIncreasing, GoodTimestamp;
    AppendFiles(s, a, history);
    AppendList(s, a);
  }

  lemma VersionsBelow(s: Store)
    requires StrictlyIncreasing(s.versions) && NewestKept(s)
    ensures forall i :: 0 <= i < |s.versions| ==> s.versions[i].version < s.next
  {
  }

  /** Pruning never deletes the file of an entry it keeps. */
  lemma KeptFile(s: Store, cut: nat, i: nat, stuck: set<string>)
    requires cut <= i < |s.versions| && StrictlyIncreasing(s.versions) && Listed(s)
    ensures s.versions[i].file !in Removable(s.versions[..cut], stuck)
  {
    hide ParseFile;
    var gone := s.versions[..cut];
    if s.versions[i].file in Removable(gone, stuck) {
      RemovableFiles(gone, stuck, s.versions[i].file);
      assert false;
    }
  }

  /** Dropping old entries, with or without their files, keeps the invariant while one entry stays. */
  lemma PruneKeeps(s: Store, cut: nat, stuck: set<string>, history: map<nat, Content>)
    requires Inv(s, history) && cut < |s.versions|
    ensures Inv(Store(Deleted(s.files, s.versions[..cut], stuck), s.versions[cut..], s.next), history)
  {
    hide ParseFile, Removable;
    var t := Store(Deleted(s.files, s.versions[..cut], stuck), s.versions[cut..], s.next);
    forall i | 0 <= i < |t.versions| ensures t.versions[i] == s.versions[cut + i] && t.versions[i].file in t.files {
      KeptFile(s, cut, cut + i, stuck);
      assert Recognized(s.files, s.versions[cut + i].file);
    }
    assert forall f :: Recognized(t.files, f) ==> Recognized(s.files, f) && t.files[f] == s.files[f];
    assert StrictlyIncreasing(t.versions) && Listed(t);
  }

  /** A save keeps the invariant, and after a successful one at most `max` versions are live. */
  lemma SaveKeeps(s: Store, max: nat, a: Attempt, history: map<nat, Content>)
    requires Inv(s, history) && max >= 1 && Clean(a) && s.next + 1 < U64
    ensures Inv(Save(s, max, a), Recorded(s, a, history))
    ensures Succeeds(a) ==> |Save(s, max, a).versions| <= max
  {
    hide Inv, FileName;
    if Succeeds(a) {
      AppendKeeps(s, a, history);
      var m := NewMeta(s, a);
      var t := Store(s.files[m.file := a.content], s.versions + [m], s.next + 1);
      PruneKeeps(t, Excess(|t.versions|, max), a.stuck, Recorded(s, a, history));
    }
  }

  /** A restart loses nothing that matters: the same next number, and a strictly increasing list. */
  lemma RestartKeeps(s: Store, found: seq<Meta>, history: map<nat, Content>)
    requires Inv(s, history) && IsScan(s.files, found)
    ensures NextAfter(found) == s.next
    ensures Inv(Store(s.files, found, NextAfter(found)), history)
  {
    hide ParseFile, Distinct, Faithful, StrictlyIncreasing;
    ScanIncreases(s.files, found);
    ScanListed(s.files, found);
    RestartNext(s, found, history);
    hide Recognized, IsScan, Listed;
    LastBefore(found, s.next);
  }

  lemma ScanListed(files: Directory, found: seq<Meta>)
    requires IsScan(files, found)
    ensures Listed(Store(files, found, NextAfter(found)))
    ensures forall i :: 0 <= i < |found| ==> 1 <= found[i].version < U64
  {
    hide ParseFile;
  }

  lemma RestartNext(s: Store, found: seq<Meta>, history: map<nat, Content>)
    requires Listed(s) && NewestKept(s) && Faithful(s.files, s.next, history) && IsScan(s.files, found)
    ensures NextAfter(found) == s.next
  {
    hide ParseFile;
    if s.next == 1 {
      assert forall i :: 0 <= i < |found| ==> Recognized(s.files, found[i].file);
    } else {
      var newest := s.versions[|s.versions| - 1];
      assert Recognized(s.files, newest.file) && VersionOf(newest.file) == s.next - 1;
      hide IsScan, Listed;
      ScanContinues(s.files, found, s.next - 1);
    }
  }

  lemma LastBefore(found: seq<Meta>, next: nat)
    requires NextAfter(found) == next && 1 <= next < U64 && forall i :: 0 <= i < |found| ==> 1 <= found[i].version < U64
    ensures if next == 1 then found == [] else found != [] && found[|found| - 1].version == next - 1
  {
  }

  lemma ScanIncreases(files: Directory, found: seq<Meta>)
    requires Distinct(files) && IsScan(files, found)
    ensures StrictlyIncreasing(found)
  {
    hide ParseFile;
    forall i, j | 0 <= i < j < |found| ensures found[i].version < found[j].version {
      assert Recognized(files, found[i].file) && Recognized(files, found[j].file);
    }
  }

  /** The bytes found on disk, by version. */
  function HistoryOf(files: Directory, found: seq<Meta>): map<nat, Content>
    requires forall i :: 0 <= i < |found| ==> found[i].file in files
  {
    if found == [] then map[]
    else
      var n := |found| - 1;
      HistoryOf(files, found[..n])[found[n].version := files[found[n].file]]
  }

  lemma {:induction false} HistoryOfFound(files: Directory, found: seq<Meta>)
    requires StrictlyIncreasing(found) && forall i :: 0 <= i < |found| ==> found[i].file in files
    ensures forall i :: 0 <= i < |found| ==>
      found[i].version in HistoryOf(files, found) && HistoryOf(files, found)[found[i].version] == files[found[i].file]
    ensures forall v :: v in HistoryOf(files, found) ==> exists i :: 0 <= i < |found| && found[i].version == v
    decreases |found|
  {
    if found != [] {
      var n := |found| - 1;
      var init := found[..n];
      HistoryOfFound(files, init);
      assert forall i :: 0 <= i < n ==> init[i] == found[i];
    }
  }

  /** A start on a directory in which no two recognized files share a version. */
  lemma OpenEstablishes(files: Directory, found: seq<Meta>)
    requires Distinct(files) && IsScan(files, found)
    requires forall f :: Recognized(files, f) ==> VersionOf(f) + 1 < U64
    ensures Inv(Store(files, found, NextAfter(found)), HistoryOf(files, found))
  {
    var s := Store(files, found, NextAfter(found));
    ScanIncreases(files, found);
    OpenListed(files, found);
    VersionsBelow(s);
    hide ParseFile, HistoryOf, NextAfter, Listed, Distinct, NewestKept, Faithful, Recognized;
    HistoryOfFound(files, found);
    FoundFaithful(files, found, s.next, HistoryOf(files, found));
  }

  lemma OpenListed(files: Directory, found: seq<Meta>)
    requires EntriesOk(files, found)
    requires forall f :: Recognized(files, f) ==> VersionOf(f) + 1 < U64
    ensures Listed(Store(files, found, NextAfter(found))) && NewestKept(Store(files, found, NextAfter(found)))
    ensures forall i :: 0 <= i < |found| ==> found[i].version >= 1
  {
    hide ParseFile;
    assert forall i :: 0 <= i < |found| ==>
      Recognized(files, found[i].file) && VersionOf(found[i].file) == found[i].version;
  }

  lemma FoundFaithful(files: Directory, found: seq<Meta>, next: nat, history: map<nat, Content>)
    requires IsScan(files, found)
    requires forall i :: 0 <= i < |found| ==>
      found[i].version < next && found[i].version in history && history[found[i].version] == files[found[i].file]
    ensures Faithful(files, next, history)
  {
  }

  /** An event of a store's life: a save, or a restart that rebuilds the list as `found`. */
  datatype Event = Saving(a: Attempt) | Restart(found: seq<Meta>)

  function Apply(s: Store, max: nat, e: Event): Store {
    match e
    case Saving(a) => Save(s, max, a)
    case Restart(found) => Store(s.files, found, NextAfter(found))
  }

  /** Saves are clean, and a restart lists what is on disk. */
  predicate Legal(s: Store, e: Event) {
    match e
    case Saving(a) => Clean(a)
    case Restart(found) => IsScan(s.files, found)
  }

  function After(s: Store, max: nat, events: seq<Event>): Store {
    if events == [] then s else Apply(After(s, max, events[..|events| - 1]), max, events[|events| - 1])
  }

  function HistoryAfter(s: Store, max: nat, events: seq<Event>, history: map<nat, Content>): map<nat, Content> {
    if events == [] then history
    else
      var n := |events| - 1;
      var h := HistoryAfter(s, max, events[..n], history);
      if events[n].Saving? then Recorded(After(s, max, events[..n]), events[n].a, h) else h
  }

  predicate LegalRun(s: Store, max: nat, events: seq<Event>) {
    forall i :: 0 <= i < |events| ==> Legal(After(s, max, events[..i]), events[i])
  }

  /** The version number event `i` of the run issues, if it issues one. */
  function Issued(s: Store, max: nat, events: seq<Event>, i: nat): Option<nat>
    requires i < |events|
  {
    if events[i].Saving? && Succeeds(events[i].a) then Some(After(s, max, events[..i]).next) else None
  }

  lemma PrefixLegal(s: Store, max: nat, events: seq<Event>, n: nat)
    requires LegalRun(s, max, events) && n <= |events|
    ensures LegalRun(s, max, events[..n])
  {
    forall i | 0 <= i < n ensures Legal(After(s, max, events[..n][..i]), events[..n][i]) {
      assert events[..n][..i] == events[..i];
      assert Legal(After(s, max, events[..i]), events[i]);
    }
  }

  /** Every reachable state satisfies the invariant, and the next number never falls. */
  lemma {:induction false} RunKeeps(s: Store, max: nat, events: seq<Event>, history: map<nat, Content>)
    requires Inv(s, history) && max >= 1 && LegalRun(s, max, events) && s.next + |events| < U64
    ensures Inv(After(s, max, events), HistoryAfter(s, max, events, history))
    ensures s.next <= After(s, max, events).next <= s.next + |events|
    decreases |events|
  {
    hide Inv, Save, IsScan;
    if events != [] {
      var n := |events| - 1;
      PrefixLegal(s, max, events, n);
      RunKeeps(s, max, events[..n], history);
      var mid, h := After(s, max, events[..n]), HistoryAfter(s, max, events[..n], history);
      assert Legal(mid, events[n]);
      match events[n]
      case Saving(a) =>
        SaveKeeps(mid, max, a, h);
        SaveNext(mid, max, a);
      case Restart(found) =>
        RestartKeeps(mid, found, h);
    }
  }

  lemma SaveNext(s: Store, max: nat, a: Attempt)
    requires s.next + 1 < U64
    ensures Save(s, max, a).next == if Succeeds(a) then s.next + 1 else s.next
  {
  }

  /** One event moves the next number by one if it issues a version, and not at all otherwise. */
  lemma OneEvent(s: Store, max: nat, events: seq<Event>, n: nat, history: map<nat, Content>)
    requires Inv(s, history) && max >= 1 && LegalRun(s, max, events) && s.next + |events| < U64 && n < |events|
    ensures After(s, max, events[..n + 1]).next
         == After(s, max, events[..n]).next + (if Issued(s, max, events, n).Some? then 1 else 0)
  {
    var mid := After(s, max, events[..n]);
    assert Legal(mid, events[n]);
    assert events[..n + 1][..n] == events[..n] && events[..n + 1][n] == events[n];
    assert After(s, max, events[..n + 1]) == Apply(mid, max, events[n]);
    PrefixLegal(s, max, events, n);
    hide Inv, Save, IsScan, After, LegalRun;
    RunKeeps(s, max, events[..n], history);
    match events[n]
    case Saving(a) => SaveNext(mid, max, a);
    case Restart(found) => RestartKeeps(mid, found, HistoryAfter(s, max, events[..n], history));
  }

  lemma {:induction false} NextGrows(s: Store, max: nat, events: seq<Event>, i: nat, j: nat, history: map<nat, Content>)
    requires Inv(s, history) && max >= 1 && LegalRun(s, max, events) && s.next + |events| < U64
    requires i <= j <= |events|
    ensures After(s, max, events[..i]).next <= After(s, max, events[..j]).next
    ensures i < j && Issued(s, max, events, i).Some? ==>
      After(s, max, events[..i]).next < After(s, max, events[..j]).next
    decreases j
  {
    hide Inv, After, LegalRun, Issued;
    if i < j {
      NextGrows(s, max, events, i, j - 1, history);
      OneEvent(s, max, events, j - 1, history);
    }
  }

  /** No version number is ever issued twice, restarts or not: each one issued is above all before it. */
  lemma NeverReissued(s: Store, max: nat, events: seq<Event>, i: nat, j: nat, history: map<nat, Content>)
    requires Inv(s, history) && max >= 1 && LegalRun(s, max, events) && s.next + |events| < U64
    requires i < j < |events| && Issued(s, max, events, i).Some? && Issued(s, max, events, j).Some?
    ensures Issued(s, max, events, i).value < Issued(s, max, events, j).value
  {
    hide Inv, LegalRun;
    NextGrows(s, max, events, i, j, history);
  }

  /** What is stored under a live version is what the history says, and live versions are always stored. */
  lemma {:induction false} StoredFaithful(s: Store, versions: seq<Meta>, v: nat, history: map<nat, Content>)
    requires Faithful(s.files, s.next, history) && Listed(Store(s.files, versions, s.next))
    ensures var c := Stored(s.files, versions, v);
      && (c.Some? ==> v in history && c.value == history[v])
      && (c.Some? <==> exists i :: 0 <= i < |versions| && versions[i].version == v)
    decreases |versions|
  {
    hide ParseFile;
    if versions != [] {
      var rest := versions[1..];
      assert forall i :: 0 <= i < |rest| ==> rest[i] == versions[i + 1];
      assert Recognized(s.files, versions[0].file);
      StoredFaithful(s, rest, v, history);
      assert (exists i :: 0 <= i < |versions| && versions[i].version == v)
        <==> versions[0].version == v || (exists i :: 0 <= i < |rest| && rest[i].version == v) by {
        if i :| 0 <= i < |versions| && versions[i].version == v {
          assert i > 0 ==> rest[i - 1].version == v;
        }
      }
    }
  }

  lemma {:induction false} HistoryGrows(s: Store, max: nat, events: seq<Event>, i: nat, j: nat,
                                        history: map<nat, Content>, v: nat)
    requires Inv(s, history) && max >= 1 && LegalRun(s, max, events) && s.next + |events| < U64
    requires i <= j <= |events| && v in HistoryAfter(s, max, events[..i], history)
    ensures v in HistoryAfter(s, max, events[..j], history)
    ensures HistoryAfter(s, max, events[..j], history)[v] == HistoryAfter(s, max, events[..i], history)[v]
    decreases j
  {
    hide Save, IsScan, Inv, After, HistoryAfter, LegalRun;
    if i < j {
      var n := j - 1;
      HistoryGrows(s, max, events, i, n, history, v);
      PrefixLegal(s, max, events, n);
      RunKeeps(s, max, events[..n], history);
      HistoryBelow(After(s, max, events[..n]), HistoryAfter(s, max, events[..n], history));
      HistoryStep(s, max, events, n, history);
    }
  }

  lemma HistoryStep(s: Store, max: nat, events: seq<Event>, n: nat, history: map<nat, Content>)
    requires n < |events|
    ensures var h := HistoryAfter(s, max, events[..n], history);
      HistoryAfter(s, max, events[..n + 1], history)
      == if events[n].Saving? then Recorded(After(s, max, events[..n]), events[n].a, h) else h
  {
    assert events[..n + 1][..n] == events[..n] && events[..n + 1][n] == events[n];
  }

  lemma HistoryBelow(s: Store, history: map<nat, Content>)
    requires Inv(s, history)
    ensures s.next !in history
  {
  }

  /** The bytes of a version never change: live at two moments of a run, it reads the same at both. */
  lemma BytesNeverChange(s: Store, max: nat, events: seq<Event>, i: nat, j: nat, history: map<nat, Content>, v: nat)
    requires Inv(s, history) && max >= 1 && LegalRun(s, max, events) && s.next + |events| < U64
    requires i <= j <= |events|
    ensures var a, b := After(s, max, events[..i]), After(s, max, events[..j]);
      var x, y := Stored(a.files, a.versions, v), Stored(b.files, b.versions, v);
      x.Some? && y.Some? ==> x == y
  {
    var a, b := After(s, max, events[..i]), After(s, max, events[..j]);
    PrefixLegal(s, max, events, i);
    PrefixLegal(s, max, events, j);
    hide LegalRun, After, HistoryAfter, Stored;
    var ha, hb := HistoryAfter(s, max, events[..i], history), HistoryAfter(s, max, events[..j], history);
    RunKeeps(s, max, events[..i], history);
    RunKeeps(s, max, events[..j], history);
    StoredFaithful(a, a.versions, v, ha);
    StoredFaithful(b, b.versions, v, hb);
    if Stored(a.files, a.versions, v).Some? {
      HistoryGrows(s, max, events, i, j, history, v);
    }
  }

  // ------------------------------------------------- where the conditions are needed

  lemma {:induction false} RemovableExactly(gone: seq<Meta>, stuck: set<string>, f: string)
    ensures f in Removable(gone, stuck) <==> f !in stuck && exists i :: 0 <= i < |gone| && gone[i].file == f
  {
    if gone != [] {
      var n := |gone| - 1;
      RemovableExactly(gone[..n], stuck, f);
      assert forall i :: 0 <= i < n ==> gone[..n][i] == gone[i];
    }
  }

  /** A scan continues behind the newest recognized file. */
  lemma ScanContinues(files: Directory, found: seq<Meta>, bound: nat)
    requires IsScan(files, found) && 1 <= bound < U64 - 1
    requires forall f :: Recognized(files, f) ==> VersionOf(f) <= bound
    ensures NextAfter(found) <= bound + 1
    ensures NextAfter(found) == bound + 1 <==> exists f :: Recognized(files, f) && VersionOf(f) == bound
  {
    hide ParseFile;
    assert forall i :: 0 <= i < |found| ==>
      Recognized(files, found[i].file) && VersionOf(found[i].file) == found[i].version;
    if f :| Recognized(files, f) && VersionOf(f) == bound {
      var i :| 0 <= i < |found| && found[i].file == f;
      assert found[|found| - 1].version >= found[i].version;
    }
  }

  /** The files recognized after a successful save: old ones, and the new one if its name can be read back and the prune
      leaves it. */
  lemma RecognizedAfterSave(s: Store, max: nat, a: Attempt, f: string)
    requires Succeeds(a) && 1 <= s.next < U64
    ensures Recognized(Save(s, max, a).files, f) ==> Recognized(s.files, f) || f == NewMeta(s, a).file
    ensures Recognized(Save(s, max, a).files, NewMeta(s, a).file) <==>
      && GoodTimestamp(a.timestamp)
      && NewMeta(s, a).file !in Removable((s.versions + [NewMeta(s, a)])[..Excess(|s.versions| + 1, max)], a.stuck)
    ensures GoodTimestamp(a.timestamp) ==>
      ParseFile(NewMeta(s, a).file).Some? && VersionOf(NewMeta(s, a).file) == s.next
  {
    hide ParseFile, FileName, Removable, GoodTimestamp;
    FileNameRoundTrip(s.next, a.timestamp);
  }

  /** Whether the file of the new version outlives its own save. */
  lemma NewFileStays(s: Store, max: nat, a: Attempt)
    requires forall i :: 0 <= i < |s.versions| ==> s.versions[i].file != NewMeta(s, a).file
    ensures NewMeta(s, a).file !in Removable((s.versions + [NewMeta(s, a)])[..Excess(|s.versions| + 1, max)], a.stuck)
       <==> max >= 1 || NewMeta(s, a).file in a.stuck
  {
    hide FileName, Removable;
    var m := NewMeta(s, a);
    var all := s.versions + [m];
    var gone := all[..Excess(|all|, max)];
    RemovableExactly(gone, a.stuck, m.file);
    if max == 0 {
      assert gone[|s.versions|].file == m.file;
    } else {
      forall i | 0 <= i < |gone| ensures gone[i].file != m.file {
        assert gone[i] == s.versions[i];
      }
    }
  }

  /** No listed version has the file of the next one. */
  lemma NewFileFresh(s: Store, a: Attempt, history: map<nat, Content>)
    requires Inv(s, history) && GoodTimestamp(a.timestamp)
    ensures forall i :: 0 <= i < |s.versions| ==> s.versions[i].file != NewMeta(s, a).file
  {
    hide ParseFile, FileName;
    NewFile(s, a);
    forall i | 0 <= i < |s.versions| ensures s.versions[i].file != NewMeta(s, a).file {
      assert Recognized(s.files, s.versions[i].file);
    }
  }

  /** After a save, a restart continues behind the new number exactly when the timestamp can be read back and the save
      did not prune its own file; otherwise it falls back to a number not above the one just issued. */
  lemma RestartContinuesExactly(s: Store, max: nat, a: Attempt, found: seq<Meta>, history: map<nat, Content>)
    requires Inv(s, history) && Succeeds(a) && s.next + 1 < U64 && IsScan(Save(s, max, a).files, found)
    ensures if GoodTimestamp(a.timestamp) && (max >= 1 || NewMeta(s, a).file in a.stuck)
      then NextAfter(found) == s.next + 1
      else NextAfter(found) <= s.next
  {
    hide ParseFile, FileName, Removable, GoodTimestamp, Save, IsScan;
    var t, m := Save(s, max, a), NewMeta(s, a);
    if GoodTimestamp(a.timestamp) {
      NewFileFresh(s, a, history);
      NewFileStays(s, max, a);
    }
    RecognizedAfterSave(s, max, a, m.file);
    forall f | Recognized(t.files, f)
      ensures if f == m.file then GoodTimestamp(a.timestamp) && VersionOf(f) == s.next else VersionOf(f) < s.next
    {
      RecognizedAfterSave(s, max, a, f);
    }
    ScanContinues(t.files, found, s.next);
  }

  /** So from an empty store, with a limit of no versions or a timestamp that cannot be read back, the number 1 is
      issued again after a restart. */
  lemma IssuedTwice(max: nat, a: Attempt, b: Attempt)
    requires Succeeds(a) && Succeeds(b)
    requires !GoodTimestamp(a.timestamp) || (max == 0 && NewMeta(Store(map[], [], 1), a).file !in a.stuck)
    ensures var s := Store(map[], [], 1);
      var events := [Saving(a), Restart([]), Saving(b)];
      && Inv(s, map[]) && Apply(s, max, events[0]).next == 2
      && IsScan(Apply(s, max, events[0]).files, [])
      && Issued(s, max, events, 0) == Some(1) == Issued(s, max, events, 2)
  {
    hide ParseFile, FileName, GoodTimestamp, Removable;
    var s := Store(map[], [], 1);
    var events := [Saving(a), Restart([]), Saving(b)];
    var t, m := Save(s, max, a), NewMeta(s, a);
    assert Inv(s, map[]);
    RecognizedAfterSave(s, max, a, m.file);
    if GoodTimestamp(a.timestamp) {
      NewFileStays(s, max, a);
    }
    forall f ensures !Recognized(t.files, f) {
      RecognizedAfterSave(s, max, a, f);
    }
    assert IsScan(t.files, []);
    assert events[..0] == [] && events[..1][..0] == [] && events[..2][..1] == events[..1];
    assert After(s, max, events[..1]) == t && After(s, max, events[..2]) == Store(t.files, [], 1);
  }

  /** A failed copy that leaves a file behind makes a version of it at the next start, although none was issued. */
  lemma PartialCopyListed(s: Store, max: nat, a: Attempt, found: seq<Meta>, history: map<nat, Content>)
    requires Inv(s, history) && s.next + 1 < U64 && GoodTimestamp(a.timestamp)
    requires a.sourceExists && !a.copyOk && a.left.Some? && IsScan(Save(s, max, a).files, found)
    ensures NextAfter(found) == s.next + 1 && Stored(Save(s, max, a).files, found, s.next) == a.left
  {
    hide ParseFile, FileName, GoodTimestamp, Stored, IsScan;
    var copy := a.(content := a.left.value);
    AppendKeeps(s, copy, history);
    var m := NewMeta(s, copy);
    var t := Store(s.files[m.file := copy.content], s.versions + [m], s.next + 1);
    var h := history[s.next := copy.content];
    hide Inv;
    RestartKeeps(t, found, h);
    NewestStored(Store(t.files, found, s.next + 1), h);
  }

  lemma SameName(version: nat, a: string, b: string)
    requires 0 < version < U64 && GoodTimestamp(a)
    ensures FileName(version, a) == FileName(version, b) <==> a == b
  {
    hide FileName, ParseFile, GoodTimestamp;
    FileNameRoundTrip(version, a);
    FileNameRoundTrip(version, b);
  }

  /** What a save recognizes when an earlier one failed and left its file: that file stays, unless it is overwritten. */
  lemma LeftoverStays(s: Store, max: nat, bad: Attempt, good: Attempt, history: map<nat, Content>)
    requires Inv(s, history) && GoodTimestamp(bad.timestamp) && Succeeds(good)
    requires bad.sourceExists && !bad.copyOk && bad.left.Some?
    requires NewMeta(s, bad).file != NewMeta(s, good).file
    ensures Recognized(Save(Save(s, max, bad), max, good).files, NewMeta(s, bad).file)
  {
    hide ParseFile, FileName, Removable, GoodTimestamp;
    NewFile(s, bad);
    NewFileFresh(s, bad, history);
    var f := NewMeta(s, bad).file;
    var all := s.versions + [NewMeta(s, good)];
    RemovableExactly(all[..Excess(|all|, max)], good.stuck, f);
  }

  /** A failed copy that leaves a file, and then a save under the same number: the two files clash exactly when their
      timestamps differ and the second can be read back and outlives its own save. */
  lemma LeftoverClashesExactly(s: Store, max: nat, bad: Attempt, good: Attempt, history: map<nat, Content>)
    requires Inv(s, history) && GoodTimestamp(bad.timestamp) && Succeeds(good)
    requires bad.sourceExists && !bad.copyOk && bad.left.Some?
    ensures !Distinct(Save(Save(s, max, bad), max, good).files) <==>
      && bad.timestamp != good.timestamp && GoodTimestamp(good.timestamp)
      && (max >= 1 || NewMeta(s, good).file in good.stuck)
  {
    hide ParseFile, FileName, Removable, GoodTimestamp;
    var t := Save(s, max, bad);
    var files := Save(t, max, good).files;
    var f, g := NewMeta(s, bad).file, NewMeta(s, good).file;
    NewFile(s, bad);
    SameName(s.next, bad.timestamp, good.timestamp);
    RecognizedAfterSave(t, max, good, g);
    if GoodTimestamp(good.timestamp) {
      NewFileFresh(s, good, history);
      NewFileStays(t, max, good);
    }
    if f != g {
      LeftoverStays(s, max, bad, good, history);
    }
    forall h | Recognized(files, h) ensures h == f || h == g || (Recognized(s.files, h) && VersionOf(h) < s.next) {
      RecognizedAfterSave(t, max, good, h);
    }
  }

  /** So a version can change its bytes: a store that saved `good` after such a failure may, at the next start, list the
      leftover first. */
  lemma LeftoverShadows(max: nat, bad: Attempt, good: Attempt) returns (found: seq<Meta>)
    requires max >= 1 && bad.sourceExists && !bad.copyOk && bad.left.Some? && Succeeds(good)
    requires GoodTimestamp(bad.timestamp) && GoodTimestamp(good.timestamp) && bad.timestamp != good.timestamp
    ensures var t := Save(Save(Store(map[], [], 1), max, bad), max, good);
      && Stored(t.files, t.versions, 1) == Some(good.content)
      && IsScan(t.files, found) && Stored(t.files, found, 1) == bad.left
  {
    hide ParseFile, FileName, GoodTimestamp;
    var s := Store(map[], [], 1);
    var f, g := NewMeta(s, bad).file, NewMeta(s, good).file;
    NewFile(s, bad);
    NewFile(s, good);
    SameName(1, bad.timestamp, good.timestamp);
    var t := Save(Save(s, max, bad), max, good);
    assert t.files == map[f := bad.left.value, g := good.content] && t.versions == [NewMeta(s, good)];
    found := [Meta(1, bad.timestamp, 0, "", f), Meta(1, good.timestamp, 0, "", g)];
    assert found[0].file == f && found[1].file == g;
  }

  lemma NewestStored(s: Store, history: map<nat, Content>)
    requires Inv(s, history) && s.next >= 2
    ensures s.next - 1 in history && Stored(s.files, s.versions, s.next - 1) == Some(history[s.next - 1])
  {
    hide ParseFile, Stored;
    StoredFaithful(s, s.versions, s.next - 1, history);
    assert s.versions[|s.versions| - 1].version == s.next - 1;
  }

  /** The list of a fresh start is strictly increasing exactly when no two recognized files share a version. */
  lemma StartIncreasesExactly(files: Directory, found: seq<Meta>)
    requires IsScan(files, found)
    ensures StrictlyIncreasing(found) <==> Distinct(files)
  {
    hide ParseFile;
    if Distinct(files) {
      ScanIncreases(files, found);
    }
    if StrictlyIncreasing(found) {
      forall f, g | Recognized(files, f) && Recognized(files, g) && VersionOf(f) == VersionOf(g) ensures f == g {
        var i :| 0 <= i < |found| && found[i].file == f;
        var j :| 0 <= j < |found| && found[j].file == g;
        assert found[i].version == found[j].version;
      }
    }
  }

  // ------------------------------------------------------------- what a save keeps

  /** The version is in the list. */
  ghost predicate Live(s: Store, v: nat) {
    exists i :: 0 <= i < |s.versions| && s.versions[i].version == v
  }

  /** A successful save keeps the newest versions, as many as the limit allows and all if there are no more, the new one
      last; the files it deletes are those of the entries it drops, as far as they can be deleted. */
  lemma SaveKeepsNewest(s: Store, max: nat, a: Attempt)
    requires Succeeds(a)
    ensures var all := s.versions + [Meta(s.next, a.timestamp, a.rules, a.hash, FileName(s.next, a.timestamp))];
      var t := Save(s, max, a);
      && |t.versions| == (if |all| <= max then |all| else max)
      && t.versions == all[|all| - |t.versions|..]
      && t.next == (s.next + 1) % U64
      && forall f :: f in t.files <==>
           && (f in s.files || f == FileName(s.next, a.timestamp))
           && (f in a.stuck || forall i :: 0 <= i < |all| - |t.versions| ==> all[i].file != f)
  {
    hide FileName, Removable;
    var all := s.versions + [NewMeta(s, a)];
    var gone := all[..|all| - |Save(s, max, a).versions|];
    forall f ensures f in Removable(gone, a.stuck) <==>
        f !in a.stuck && exists i :: 0 <= i < |gone| && gone[i].file == f {
      RemovableExactly(gone, a.stuck, f);
    }
    assert forall i :: 0 <= i < |gone| ==> gone[i] == all[i];
  }

  lemma {:induction false} GapBound(versions: seq<Meta>, p: nat, q: nat)
    requires StrictlyIncreasing(versions) && p <= q < |versions|
    ensures versions[q].version >= versions[p].version + (q - p)
    decreases q
  {
    if p < q { GapBound(versions, p, q - 1); }
  }

  lemma KeepsNewest(s: Store, max: nat, a: Attempt)
    requires Succeeds(a)
    ensures var all, t := s.versions + [NewMeta(s, a)], Save(s, max, a).versions;
      |t| == (if |all| <= max then |all| else max) && t == all[|all| - |t|..]
  {
    hide FileName, Removable;
  }

  /** The entry `p` of an increasing list is among its last `n`, if the last number is less than `n` above its own. */
  lemma AmongLast(all: seq<Meta>, kept: seq<Meta>, p: nat)
    requires StrictlyIncreasing(all) && p < |all| && |kept| <= |all| && kept == all[|all| - |kept|..]
    requires |kept| == |all| || all[|all| - 1].version < all[p].version + |kept|
    ensures exists i :: 0 <= i < |kept| && kept[i].version == all[p].version
  {
    GapBound(all, p, |all| - 1);
    assert kept[p - (|all| - |kept|)] == all[p];
  }

  /** A save drops no version that has fewer later ones than the limit. */
  lemma LiveAfterSave(s: Store, max: nat, a: Attempt, history: map<nat, Content>, v: nat)
    requires Inv(s, history) && Clean(a) && s.next + 1 < U64 && Live(s, v)
    requires Save(s, max, a).next <= v + max
    ensures Live(Save(s, max, a), v)
  {
    hide FileName, Recognized, Distinct, Faithful, StrictlyIncreasing, Listed, Save;
    if Succeeds(a) {
      SaveNext(s, max, a);
      AppendList(s, a);
      KeepsNewest(s, max, a);
      hide *;
      var p := IndexOf(s, v);
      var all := s.versions + [NewMeta(s, a)];
      LastEntry(s, a);
      AmongLast(all, Save(s, max, a).versions, p);
      IsLive(Save(s, max, a), v);
    } else {
      FailedSave(s, max, a);
    }
  }

  lemma IndexOf(s: Store, v: nat) returns (p: nat)
    requires Live(s, v)
    ensures p < |s.versions| && s.versions[p].version == v
  {
    p :| p < |s.versions| && s.versions[p].version == v;
  }

  lemma IsLive(s: Store, v: nat)
    requires exists i :: 0 <= i < |s.versions| && s.versions[i].version == v
    ensures Live(s, v)
  {
  }

  lemma LastEntry(s: Store, a: Attempt)
    ensures NewMeta(s, a).version == s.next
  {
  }

  lemma FailedSave(s: Store, max: nat, a: Attempt)
    requires Clean(a) && !Succeeds(a)
    ensures Save(s, max, a) == s
  {
  }

  lemma LiveAfterRestart(s: Store, found: seq<Meta>, v: nat)
    requires Listed(s) && IsScan(s.files, found) && Live(s, v)
    ensures Live(Store(s.files, found, NextAfter(found)), v)
  {
    hide ParseFile;
    var p :| 0 <= p < |s.versions| && s.versions[p].version == v;
    assert Recognized(s.files, s.versions[p].file);
    var i :| 0 <= i < |found| && found[i].file == s.versions[p].file;
    assert found[i].version == v;
  }

  lemma LiveWhenIssued(s: Store, max: nat, a: Attempt)
    requires Succeeds(a) && max >= 1
    ensures Live(Save(s, max, a), s.next)
  {
    hide FileName, Removable;
    SaveKeepsNewest(s, max, a);
    var t := Save(s, max, a);
    assert t.versions[|t.versions| - 1].version == s.next;
  }

  /** How many versions events `a` to `b` of the run issue. */
  function IssuedIn(s: Store, max: nat, events: seq<Event>, a: nat, b: nat): nat
    requires a <= b <= |events|
  {
    if a == b then 0 else IssuedIn(s, max, events, a, b - 1) + (if Issued(s, max, events, b - 1).Some? then 1 else 0)
  }

  lemma {:induction false} NextCounts(s: Store, max: nat, events: seq<Event>, a: nat, b: nat,
                                      history: map<nat, Content>)
    requires Inv(s, history) && max >= 1 && LegalRun(s, max, events) && s.next + |events| < U64 && a <= b <= |events|
    ensures After(s, max, events[..b]).next == After(s, max, events[..a]).next + IssuedIn(s, max, events, a, b)
    decreases b
  {
    hide Inv, After, LegalRun, Issued;
    if a < b {
      NextCounts(s, max, events, a, b - 1, history);
      OneEvent(s, max, events, b - 1, history);
    }
  }

  /** Over every run, a version stays live until as many later ones have been issued as the limit allows. */
  lemma {:induction false} StaysLive(s: Store, max: nat, events: seq<Event>, i: nat, j: nat, history: map<nat, Content>)
    requires Inv(s, history) && max >= 1 && LegalRun(s, max, events) && s.next + |events| < U64
    requires i < j <= |events| && Issued(s, max, events, i).Some? && IssuedIn(s, max, events, i + 1, j) < max
    ensures Live(After(s, max, events[..j]), Issued(s, max, events, i).value)
    decreases j
  {
    hide Inv, After, Live, Save, IsScan;
    var n := j - 1;
    var v := Issued(s, max, events, i).value;
    var mid := After(s, max, events[..n]);
    PrefixLegal(s, max, events, n);
    RunKeeps(s, max, events[..n], history);
    RunStep(s, max, events, n);
    assert Legal(mid, events[n]);
    if n == i {
      LiveWhenIssued(mid, max, events[i].a);
    } else {
      StaysLive(s, max, events, i, n, history);
      OneEvent(s, max, events, i, history);
      NextCounts(s, max, events, i + 1, j, history);
      LiveStep(mid, max, events[n], HistoryAfter(s, max, events[..n], history), v);
    }
  }

  lemma RunStep(s: Store, max: nat, events: seq<Event>, n: nat)
    requires n < |events|
    ensures After(s, max, events[..n + 1]) == Apply(After(s, max, events[..n]), max, events[n])
  {
    hide Apply;
    assert events[..n + 1][..n] == events[..n];
  }

  lemma LiveStep(s: Store, max: nat, e: Event, history: map<nat, Content>, v: nat)
    requires Inv(s, history) && Legal(s, e) && s.next + 1 < U64 && Live(s, v)
    requires Apply(s, max, e).next <= v + max
    ensures Live(Apply(s, max, e), v)
  {
    hide Save, IsScan, Live, ParseFile, Distinct, Faithful;
    match e
    case Saving(a) => LiveAfterSave(s, max, a, history, v);
    case Restart(found) => LiveAfterRestart(s, found, v);
  }
}
