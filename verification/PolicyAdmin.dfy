/**
 Rolling back and reloading the policy (`src/stats/uds_server.cpp`, `src/proxy/proxy_server.cpp`): the two
 handlers that change the engine and the version store together, and the proxy's start.
 */
module PolicyAdmin {
  import opened Bytes
  import opened JsonScan
  import opened JsonText
  import opened JsonLookup
  import Policy
  import opened VersionStore

  /** The policy file parser: a configuration, or nothing for bytes it rejects. */
  type Loader = Content -> Option<Policy.Config>

  /** What a handler answers. */
  datatype Reply =
    | NotImplemented
    | Failed
    | RolledBack(target: nat, previous: nat, rules: nat)
    | Reloaded(version: nat, rules: nat)

  function Newest(versions: seq<Meta>): nat {
    if versions == [] then 0 else versions[|versions| - 1].version
  }

  /** The configuration a rollback request leads to, if it leads to one. */
  function Target(request: string, s: Store, load: Loader): Option<(nat, Policy.Config)> {
    match PayloadUint(request, "target_version")
    case None => None
    case Some(v) => (
      match Stored(s.files, s.versions, v)
      case None => None
      case Some(bytes) => (
        match load(bytes) case None => None case Some(config) => Some((v, config))))
  }

  class UdsServer {
    const engine: Policy.PolicyEngine?
    const store: PolicyVersionStore?
    const policyPath: string

    constructor (engine: Policy.PolicyEngine?, store: PolicyVersionStore?, policyPath: string)
      ensures this.engine == engine && this.store == store && this.policyPath == policyPath
    {
      this.engine, this.store, this.policyPath := engine, store, policyPath;
    }

    /** The state the handlers share, with the record of what was saved so far. */
    ghost function View(history: map<nat, Content>): State
      reads engine, store
      requires engine != null && store != null
    {
      State(engine.config, engine.version, store.View(), history)
    }

    /** Nothing is found without a path. */
    function Found(file: Option<Content>): Option<Content> {
      if policyPath == "" then None else file
    }

    /** `handle_policy_rollback` */
    method HandlePolicyRollback(request: string, load: Loader, ghost history: map<nat, Content>) returns (reply: Reply)
      modifies engine
      ensures store == null || engine == null ==> reply == NotImplemented
      ensures store != null && engine != null ==>
        && View(history) == Step(old(View(history)), store.max, Rollback(request), load)
        && match Target(request, store.View(), load)
           case None => reply == Failed && unchanged(engine)
           case Some((v, config)) => reply == RolledBack(v, old(engine.version), |config.access|)
    {
      if store == null || engine == null {
        return NotImplemented;
      }
      var target := ParsePayloadUint64Field(request, "target_version");
      if target.None? {
        return Failed;
      }
      var previous := engine.version;
      var bytes := store.LoadSnapshot(target.value);
      if bytes.None? {
        return Failed;
      }
      var loaded := load(bytes.value);
      if loaded.None? {
        return Failed;
      }
      engine.ReloadVersion(loaded, target.value);
      return RolledBack(target.value, previous, |loaded.value.access|);
    }

    /** `handle_policy_reload`; `file` is what the loader finds at the policy path, and the attempt what the
        copy into the store then does. */
    method HandlePolicyReload(file: Option<Content>, a: Attempt, load: Loader, ghost history: map<nat, Content>)
      returns (reply: Reply)
      modifies engine, store
      ensures store == null || engine == null ==> reply == NotImplemented
      ensures store != null && engine != null ==>
        var after := Step(old(View(history)), store.max, Reload(Found(file), a), load);
        View(after.history) == after
      ensures store != null && engine != null ==>
        if Load(Found(file), load).None? then reply == Failed && unchanged(engine) && unchanged(store)
        else reply == Reloaded(engine.version, |Load(file, load).value.access|)
    {
      if store == null || engine == null {
        return NotImplemented;
      }
      if policyPath == "" || file.None? {
        return Failed;
      }
      var loaded := load(file.value);
      if loaded.None? {
        return Failed;
      }
      var version := 0;
      var saved := store.SaveSnapshot(a);
      if saved.None? {
        version := store.CurrentVersion();
      } else {
        version := saved.value.version;
      }
      engine.ReloadVersion(loaded, version);
      return Reloaded(version, |loaded.value.access|);
    }
  }

  /** The start of the proxy (`ProxyServer::run`): load the policy, scan the directory, save a first snapshot. */
  method StartProxy(directory: Directory, max: nat, file: Option<Content>, a: Attempt, load: Loader,
                    ghost before: State)
    returns (engine: Policy.PolicyEngine, store: PolicyVersionStore, ghost found: seq<Meta>)
    requires before.store.files == directory
    ensures fresh(engine) && fresh(store) && store.max == max
    ensures IsScan(directory, found)
    ensures var after := Step(before, max, Start(found, file, a), load);
      State(engine.config, engine.version, store.View(), after.history) == after
  {
    var config := if file.None? then None else load(file.value);
    engine := new Policy.PolicyEngine(config);
    store := new PolicyVersionStore(directory, max);
    found := store.versions;
    if config.Some? {
      var saved := store.SaveSnapshot(a);
      if saved.Some? {
        engine.ReloadVersion(config, saved.value.version);
      }
    }
  }

  // ------------------------------------------------------------------- whole runs

  /** Engine and store together; `history` records the bytes of every version ever saved. */
  datatype State = State(config: Option<Policy.Config>, version: nat, store: Store, history: map<nat, Content>)

  /** A reload (from the control socket or by SIGHUP), a rollback, or a new start of the proxy. */
  datatype Op =
    | Reload(file: Option<Content>, a: Attempt)
    | Rollback(request: string)
    | Start(found: seq<Meta>, file: Option<Content>, a: Attempt)

  function Load(file: Option<Content>, load: Loader): Option<Policy.Config> {
    if file.None? then None else load(file.value)
  }

  /** Install `config` and save the file; a failed save leaves the version at `otherwise`. */
  function Install(st: State, store: Store, max: nat, config: Option<Policy.Config>, a: Attempt, otherwise: nat): State
  {
    State(config, if Succeeds(a) then store.next else otherwise, Save(store, max, a), Recorded(store, a, st.history))
  }

  function Step(st: State, max: nat, op: Op, load: Loader): State {
    match op
    case Reload(file, a) =>
      var config := Load(file, load);
      if config.None? then st else Install(st, st.store, max, config, a, Newest(st.store.versions))
    case Rollback(request) => (
      match Target(request, st.store, load)
      case None => st
      case Some((v, config)) => st.(config := Some(config), version := v))
    case Start(found, file, a) =>
      var store := Store(st.store.files, found, NextAfter(found));
      var config := Load(file, load);
      if config.None? then State(None, 0, store, st.history) else Install(st, store, max, config, a, 0)
  }

  function Run(st: State, max: nat, ops: seq<Op>, load: Loader): State {
    if ops == [] then st else Step(Run(st, max, ops[..|ops| - 1], load), max, ops[|ops| - 1], load)
  }

  /** The attempt with which an operation saves, if it comes to saving. */
  function Saves(op: Op, load: Loader): Option<Attempt> {
    if op.Rollback? || Load(op.file, load).None? || !Succeeds(op.a) then None else Some(op.a)
  }

  /** Saves are clean, and a start lists what is on disk. */
  predicate LegalOp(st: State, op: Op) {
    && (!op.Rollback? ==> Clean(op.a))
    && (op.Start? ==> IsScan(st.store.files, op.found))
  }

  predicate LegalOps(st: State, max: nat, ops: seq<Op>, load: Loader) {
    forall i :: 0 <= i < |ops| ==> LegalOp(Run(st, max, ops[..i], load), ops[i])
  }

  /** What is loaded is what is saved: the save succeeds, on a file that did not change in between. */
  predicate Stable(op: Op, load: Loader) {
    !op.Rollback? && Load(op.file, load).Some? ==> Succeeds(op.a) && op.a.content == op.file.value
  }

  /** The engine runs the configuration saved under its version number, or has none. */
  predicate Synced(st: State, load: Loader) {
    if st.config.None? then st.version == 0
    else st.version in st.history && load(st.history[st.version]) == st.config
  }

  ghost predicate Sound(st: State) {
    Inv(st.store, st.history)
  }

  // -------------------------------------------------------------------- one step

  lemma InstallKeeps(st: State, store: Store, max: nat, config: Option<Policy.Config>, a: Attempt, otherwise: nat)
    requires Inv(store, st.history) && max >= 1 && Clean(a) && store.next + 1 < U64
    ensures var t := Install(st, store, max, config, a, otherwise);
      && Sound(t) && t.store.next <= store.next + 1
      && (forall v :: v in st.history ==> v in t.history && t.history[v] == st.history[v])
  {
    hide Inv, Save;
    SaveKeeps(store, max, a, st.history);
    SaveNext(store, max, a);
    HistoryBelow(store, st.history);
  }

  /** Every operation keeps the store sound and never rewrites what a version number stands for. */
  lemma StepKeeps(st: State, max: nat, op: Op, load: Loader)
    requires Sound(st) && max >= 1 && LegalOp(st, op) && st.store.next + 1 < U64
    ensures var t := Step(st, max, op, load);
      && Sound(t) && t.store.next <= st.store.next + 1
      && (forall v :: v in st.history ==> v in t.history && t.history[v] == st.history[v])
  {
    hide Inv, Save, IsScan, Target;
    match op
    case Reload(file, a) =>
      InstallKeeps(st, st.store, max, Load(file, load), a, Newest(st.store.versions));
    case Rollback(request) =>
    case Start(found, file, a) =>
      RestartKeeps(st.store, found, st.history);
      InstallKeeps(st, Store(st.store.files, found, NextAfter(found)), max, Load(file, load), a, 0);
  }

  lemma SavedUnderNext(st: State, max: nat, op: Op, load: Loader)
    requires Sound(st) && LegalOp(st, op) && Saves(op, load).Some?
    ensures var t := Step(st, max, op, load);
      t.version in t.history && t.history[t.version] == op.a.content && t.version == st.store.next
  {
    hide Inv, Save, IsScan;
    if op.Start? {
      RestartKeeps(st.store, op.found, st.history);
    }
  }

  lemma StepSynced(st: State, max: nat, op: Op, load: Loader)
    requires Sound(st) && LegalOp(st, op) && Stable(op, load) && Synced(st, load)
    ensures Synced(Step(st, max, op, load), load)
  {
    match op
    case Rollback(request) =>
      RollbackExact(st, max, request, load);
    case _ =>
      if Saves(op, load).Some? {
        hide Inv, Save, IsScan;
        SavedUnderNext(st, max, op, load);
      }
  }

  /** A rollback succeeds exactly when the payload names a live version whose bytes parse, and then installs the
      configuration parsed from the bytes saved as that version; otherwise it changes nothing. */
  lemma RollbackExact(st: State, max: nat, request: string, load: Loader)
    requires Sound(st)
    ensures var t := Step(st, max, Rollback(request), load);
      var target := PayloadUint(request, "target_version");
      if target.Some? && Live(st.store, target.value) && target.value in st.history
         && load(st.history[target.value]).Some?
      then t == st.(config := load(st.history[target.value]), version := target.value)
      else t == st && Target(request, st.store, load) == None
    ensures forall v :: Live(st.store, v) ==> v in st.history
  {
    hide Stored, PayloadUint;
    forall v: nat ensures Live(st.store, v) ==> v in st.history {
      LiveStored(st, v);
    }
    var target := PayloadUint(request, "target_version");
    if target.Some? {
      LiveStored(st, target.value);
    }
  }

  /** The live versions are the stored ones, and hold what the history says. */
  lemma LiveStored(st: State, v: nat)
    requires Sound(st)
    ensures Live(st.store, v) <==> Stored(st.store.files, st.store.versions, v).Some?
    ensures Live(st.store, v) ==> v in st.history && Stored(st.store.files, st.store.versions, v) == Some(st.history[v])
  {
    hide Stored;
    StoredFaithful(st.store, st.store.versions, v, st.history);
  }

  // ------------------------------------------------------------------ every run

  lemma RunStep(st: State, max: nat, ops: seq<Op>, load: Loader, n: nat)
    requires n < |ops|
    ensures Run(st, max, ops[..n + 1], load) == Step(Run(st, max, ops[..n], load), max, ops[n], load)
  {
    hide Step;
    assert ops[..n + 1][..n] == ops[..n];
  }

  lemma {:induction false} RunSound(st: State, max: nat, ops: seq<Op>, load: Loader, n: nat)
    requires Sound(st) && max >= 1 && LegalOps(st, max, ops, load) && st.store.next + |ops| < U64 && n <= |ops|
    ensures Sound(Run(st, max, ops[..n], load)) && Run(st, max, ops[..n], load).store.next <= st.store.next + n
    decreases n
  {
    hide Sound, Step, LegalOp;
    if n > 0 {
      RunSound(st, max, ops, load, n - 1);
      RunStep(st, max, ops, load, n - 1);
      StepKeeps(Run(st, max, ops[..n - 1], load), max, ops[n - 1], load);
    }
  }

  /** While saves succeed on a stable file, the engine always runs the configuration saved under its version. */
  lemma {:induction false} EngineStaysSynced(st: State, max: nat, ops: seq<Op>, load: Loader, n: nat)
    requires Sound(st) && max >= 1 && LegalOps(st, max, ops, load) && st.store.next + |ops| < U64 && n <= |ops|
    requires Synced(st, load) && forall i :: 0 <= i < |ops| ==> Stable(ops[i], load)
    ensures Synced(Run(st, max, ops[..n], load), load)
    decreases n
  {
    hide Sound, Step, LegalOp, Synced, Stable;
    if n > 0 {
      EngineStaysSynced(st, max, ops, load, n - 1);
      RunSound(st, max, ops, load, n - 1);
      RunStep(st, max, ops, load, n - 1);
      StepSynced(Run(st, max, ops[..n - 1], load), max, ops[n - 1], load);
    }
  }

  /** Whatever happens later, the number an operation saved under keeps standing for the bytes it saved. */
  lemma {:induction false} SavedForGood(st: State, max: nat, ops: seq<Op>, load: Loader, i: nat, j: nat)
    requires Sound(st) && max >= 1 && LegalOps(st, max, ops, load) && st.store.next + |ops| < U64
    requires i < j <= |ops| && Saves(ops[i], load).Some?
    ensures var v := Run(st, max, ops[..i + 1], load).version;
      v in Run(st, max, ops[..j], load).history && Run(st, max, ops[..j], load).history[v] == ops[i].a.content
    decreases j
  {
    hide Sound, Step, LegalOp, Saves, Run;
    var n := j - 1;
    RunSound(st, max, ops, load, n);
    RunStep(st, max, ops, load, n);
    if n == i {
      SavedUnderNext(Run(st, max, ops[..i], load), max, ops[i], load);
    } else {
      SavedForGood(st, max, ops, load, i, n);
      StepKeeps(Run(st, max, ops[..n], load), max, ops[n], load);
    }
  }

  /** A rollback request, at any point of any run, to the version some earlier operation saved: if it succeeds, the
      engine runs what the loader makes of exactly the bytes saved then. */
  lemma RollbackRestores(st: State, max: nat, ops: seq<Op>, load: Loader, i: nat, j: nat, request: Value,
                         trailing: string)
    requires Sound(st) && max >= 1 && LegalOps(st, max, ops, load) && st.store.next + |ops| < U64
    requires i < j < |ops| && Saves(ops[i], load).Some?
    requires ValidDocument(request, trailing) && ops[j] == Rollback(Document(request, trailing))
    requires PayloadNumber(request, "target_version") == Some(Run(st, max, ops[..i + 1], load).version)
    ensures var v := Run(st, max, ops[..i + 1], load).version;
      var before, after := Run(st, max, ops[..j], load), Run(st, max, ops[..j + 1], load);
      if Live(before.store, v) && load(ops[i].a.content).Some?
      then after == before.(config := load(ops[i].a.content), version := v)
      else after == before
  {
    hide Sound, Step, Run, LegalOps, Saves, Live, PayloadUint, PayloadNumber, Document, Target;
    var before := Run(st, max, ops[..j], load);
    PayloadLookupExact(request, trailing, "target_version");
    RunSound(st, max, ops, load, j);
    RunStep(st, max, ops, load, j);
    SavedForGood(st, max, ops, load, i, j);
    RollbackExact(before, max, Document(request, trailing), load);
  }

  // ------------------------------------------------------------------- failed saves

  /** A reload that loads a configuration leaves the engine in step with its version number exactly when the bytes
      saved, or after a failed save the bytes of the newest version, parse to that same configuration. */
  lemma ReloadSyncedExactly(st: State, max: nat, file: Option<Content>, a: Attempt, load: Loader)
    requires Sound(st) && LegalOp(st, Reload(file, a)) && Load(file, load).Some?
    ensures Synced(Step(st, max, Reload(file, a), load), load) <==>
      if Succeeds(a) then load(a.content) == Load(file, load)
      else
        && st.store.versions != []
        && Stored(st.store.files, st.store.versions, Newest(st.store.versions)).Some?
        && load(Stored(st.store.files, st.store.versions, Newest(st.store.versions)).value) == Load(file, load)
  {
    hide Stored, Save;
    var v := Newest(st.store.versions);
    LiveStored(st, v);
    if Succeeds(a) {
      SavedUnderNext(st, max, Reload(file, a), load);
    } else if st.store.versions != [] {
      assert st.store.versions[|st.store.versions| - 1].version == v;
    }
  }

  /** So a failed save can leave the engine running one policy under the number of another: save `x`, then reload `y`
      while the store cannot be written. */
  lemma FailedSaveDiverges(x: Content, y: Content, good: Attempt, bad: Attempt, max: nat, load: Loader)
    requires load(x).Some? && load(y).Some? && load(x) != load(y) && max >= 1
    requires Succeeds(good) && good.content == x && !Succeeds(bad)
    requires Clean(good) && Clean(bad)
    ensures var start := State(None, 0, Store(map[], [], 1), map[]);
      var st := Run(start, max, [Reload(Some(x), good), Reload(Some(y), bad)], load);
      && Sound(start) && Synced(start, load) && !Synced(st, load)
      && st.config == load(y) && st.version == 1 && st.history == map[1 := x]
  {
    var start := State(None, 0, Store(map[], [], 1), map[]);
    var ops := [Reload(Some(x), good), Reload(Some(y), bad)];
    hide Save, LegalOp;
    assert Sound(start);
    RunStep(start, max, ops, load, 0);
    RunStep(start, max, ops, load, 1);
    assert ops[..2] == ops && ops[..0] == [];
    var mid := Run(start, max, ops[..1], load);
    SaveKeeps(start.store, max, good, start.history);
    SaveNext(start.store, max, good);
    assert Newest(mid.store.versions) == 1;
  }

  /** After a failed save the engine's version is the newest live one, or 0 if there is none. */
  lemma FailedSaveVersion(st: State, max: nat, file: Option<Content>, a: Attempt, load: Loader)
    requires Sound(st) && Load(file, load).Some? && !Succeeds(a)
    ensures var v := Step(st, max, Reload(file, a), load).version;
      if st.store.versions == [] then v == 0
      else Live(st.store, v) && forall u: nat :: Live(st.store, u) ==> u <= v
  {
    hide Save;
    var n := |st.store.versions|;
    if n > 0 {
      assert st.store.versions[n - 1].version == Newest(st.store.versions);
      forall u: nat | Live(st.store, u) ensures u <= Newest(st.store.versions) {
        var i :| 0 <= i < n && st.store.versions[i].version == u;
        assert i < n - 1 ==> st.store.versions[i].version < st.store.versions[n - 1].version;
      }
    }
  }
}
