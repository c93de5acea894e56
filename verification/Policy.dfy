/**
 The policy engine (`src/policy/policy_engine.cpp`, `src/policy/rule.hpp`): a cascade of checks over an
 immutable configuration, written once for the data path (`evaluate`) and once for the control
 socket (`explain`). `Decide` states the outcome as the first check that fails.
 */
module Policy {
  import opened Bytes
  import opened Text
  import opened PolicyText

  // ------------------------------------------------------------------ configuration

  datatype Mode = Enforce | Monitor

  datatype TimeRestriction = TimeRestriction(allowRange: string, zone: string)

  datatype AccessRule = AccessRule(user: string, cidr: string, allowedTables: seq<string>,
                                   allowedOperations: seq<string>, blockedOperations: seq<string>,
                                   time: Option<TimeRestriction>, mode: Mode)

  datatype SqlRules = SqlRules(blockStatements: seq<string>, blockPatterns: seq<string>, mode: Mode)

  datatype ProcedureControl = ProcedureControl(mode: string, list: seq<string>, blockDynamicSql: bool,
                                               blockCreateAlter: bool)

  datatype Config = Config(access: seq<AccessRule>, sql: SqlRules, procedures: ProcedureControl,
                           blockSchemaAccess: bool)

  datatype Command =
    | Select | Insert | Update | Delete | Drop | Truncate | Alter | Create | Call | Prepare | Execute | Unknown

  datatype Query = Query(command: Command, tables: seq<string>, rawSql: string)

  datatype Session = Session(user: string, ip: string)

  datatype Action = Allow | Block | Log

  datatype Result = Result(action: Action, rule: string, reason: string, monitor: bool)

  datatype Explanation = Explanation(result: Result, accessRule: string)

  /** `command_to_string` */
  function CommandText(c: Command): string {
    match c
    case Select => "SELECT"
    case Insert => "INSERT"
    case Update => "UPDATE"
    case Delete => "DELETE"
    case Drop => "DROP"
    case Truncate => "TRUNCATE"
    case Alter => "ALTER"
    case Create => "CREATE"
    case Call => "CALL"
    case Prepare => "PREPARE"
    case Execute => "EXECUTE"
    case Unknown => "UNKNOWN"
  }

  // ------------------------------------------------------------------ single checks

  predicate Listed(names: seq<string>, name: string) {
    exists i :: 0 <= i < |names| && IEquals(name, names[i])
  }

  /** The first listed name equal to `name` up to case, from index `i` on. */
  function FirstListed(names: seq<string>, name: string, i: nat): (k: nat)
    requires i <= |names|
    ensures i <= k <= |names| && (forall j :: i <= j < k ==> !IEquals(name, names[j]))
    ensures k < |names| ==> IEquals(name, names[k])
    decreases |names| - i
  {
    if i < |names| && !IEquals(name, names[i]) then FirstListed(names, name, i + 1) else i
  }

  /** The first pattern that compiles and occurs in the text; one that does not compile is skipped. */
  function FirstPattern(patterns: seq<string>, sql: string, env: Env, i: nat): (k: nat)
    requires i <= |patterns|
    ensures i <= k <= |patterns| && (forall j :: i <= j < k ==> env.regex(patterns[j], sql) != Matches)
    ensures k < |patterns| ==> env.regex(patterns[k], sql) == Matches
    decreases |patterns| - i
  {
    if i < |patterns| && env.regex(patterns[i], sql) != Matches then FirstPattern(patterns, sql, env, i + 1) else i
  }

  predicate RuleMatches(rule: AccessRule, s: Session, env: Env) {
    (rule.user == s.user || rule.user == "*") && (rule.cidr == "" || IpInCidr(s.ip, rule.cidr, env))
  }

  /** The lowest-index rule for this user and address. */
  function FirstRule(rules: seq<AccessRule>, s: Session, env: Env, i: nat): (k: nat)
    requires i <= |rules|
    ensures i <= k <= |rules| && (forall j :: i <= j < k ==> !RuleMatches(rules[j], s, env))
    ensures k < |rules| ==> RuleMatches(rules[k], s, env)
    decreases |rules| - i
  {
    if i < |rules| && !RuleMatches(rules[i], s, env) then FirstRule(rules, s, env, i + 1) else i
  }

  /** The first table outside the allowed list. */
  function FirstForeign(tables: seq<string>, allowed: seq<string>, i: nat): (k: nat)
    requires i <= |tables|
    ensures i <= k <= |tables| && (forall j :: i <= j < k ==> Listed(allowed, tables[j]))
    ensures k < |tables| ==> !Listed(allowed, tables[k])
    decreases |tables| - i
  {
    if i < |tables| && Listed(allowed, tables[i]) then FirstForeign(tables, allowed, i + 1) else i
  }

  const SCHEMAS: seq<string> := ["information_schema", "mysql", "performance_schema", "sys"]

  /** The part of a table name before its first dot, or all of it. */
  function SchemaPart(table: string): string {
    table[..Find(table, '.', 0)]
  }

  predicate InSystemSchema(table: string) {
    exists i :: 0 <= i < |SCHEMAS| && IEquals(SchemaPart(table), SCHEMAS[i])
  }

  function ProcedureName(q: Query): string {
    if q.tables == [] then "" else q.tables[0]
  }

  // ------------------------------------------------------------------- the cascade

  datatype Denial = Denial(rule: string, reason: string)

  /** The checks on a matched access rule, in the order they are made. */
  datatype Check =
    | BlockedOperations | Hours | Tables | AllowedOperations | DynamicSql | Procedures | CreateAlter | Schemas

  const CHECKS: seq<Check> :=
    [BlockedOperations, Hours, Tables, AllowedOperations, DynamicSql, Procedures, CreateAlter, Schemas]

  function OperationBlocked(rule: AccessRule, q: Query, s: Session): Option<Denial> {
    var i := FirstListed(rule.blockedOperations, CommandText(q.command), 0);
    if i < |rule.blockedOperations|
    then Some(Denial("blocked-operation", "Operation blocked for user '" + s.user + "': " + rule.blockedOperations[i]))
    else None
  }

  function OutsideHours(rule: AccessRule, s: Session, env: Env): Option<Denial> {
    if rule.time.None? then None
    else
      var range := ParseTimeRange(rule.time.value.allowRange);
      if range.None?
      then Some(Denial("time-restriction", "Invalid time restriction configuration for user '" + s.user + "'"))
      else if !WithinTimeRange(range.value, rule.time.value.zone, env)
      then Some(Denial("time-restriction", "Access outside allowed hours"))
      else None
  }

  function TableDenied(rule: AccessRule, q: Query): Option<Denial> {
    var i := FirstForeign(q.tables, rule.allowedTables, 0);
    if "*" !in rule.allowedTables && i < |q.tables|
    then Some(Denial("table-denied", "Table access denied: " + q.tables[i]))
    else None
  }

  function OperationDenied(rule: AccessRule, q: Query): Option<Denial> {
    if rule.allowedOperations != [] && "*" !in rule.allowedOperations
      && !Listed(rule.allowedOperations, CommandText(q.command))
    then Some(Denial("operation-denied", "Operation not allowed: " + CommandText(q.command)))
    else None
  }

  function DynamicSqlBlocked(c: Config, q: Query): Option<Denial> {
    if (q.command == Prepare || q.command == Execute) && c.procedures.blockDynamicSql
    then Some(Denial("procedure-dynamic-sql", "Dynamic SQL (" + CommandText(q.command) + ") blocked by policy"))
    else None
  }

  function ProcedureDenied(c: Config, q: Query): Option<Denial> {
    var name := ProcedureName(q);
    if q.command != Call then None
    else if c.procedures.mode == "whitelist" && !Listed(c.procedures.list, name)
    then Some(Denial("procedure-whitelist", "Procedure '" + name + "' not in whitelist"))
    else if c.procedures.mode == "blacklist" && Listed(c.procedures.list, name)
    then Some(Denial("procedure-blacklist", "Procedure '" + name + "' is blacklisted"))
    else None
  }

  function CreateAlterBlocked(c: Config, q: Query): Option<Denial> {
    if (q.command == Create || q.command == Alter) && c.procedures.blockCreateAlter
    then Some(Denial("procedure-create-alter", CommandText(q.command) + " blocked by procedure policy"))
    else None
  }

  function SchemaBlocked(c: Config, q: Query): Option<Denial> {
    if c.blockSchemaAccess && exists i :: 0 <= i < |q.tables| && InSystemSchema(q.tables[i])
    then Some(Denial("schema-access", "Schema access blocked"))
    else None
  }

  /** Why one check refuses the query, if it does. */
  function Refusal(k: Check, c: Config, rule: AccessRule, q: Query, s: Session, env: Env): Option<Denial> {
    match k
    case BlockedOperations => OperationBlocked(rule, q, s)
    case Hours => OutsideHours(rule, s, env)
    case Tables => TableDenied(rule, q)
    case AllowedOperations => OperationDenied(rule, q)
    case DynamicSql => DynamicSqlBlocked(c, q)
    case Procedures => ProcedureDenied(c, q)
    case CreateAlter => CreateAlterBlocked(c, q)
    case Schemas => SchemaBlocked(c, q)
  }

  /** The refusal of the first check, from number `i` on, that has one. */
  function FirstRefusal(i: nat, c: Config, rule: AccessRule, q: Query, s: Session, env: Env): Option<Denial>
    requires i <= |CHECKS|
    decreases |CHECKS| - i
  {
    if i == |CHECKS| then None
    else
      var d := Refusal(CHECKS[i], c, rule, q, s, env);
      if d.Some? then d else FirstRefusal(i + 1, c, rule, q, s, env)
  }

  /** The blocked statement, or failing that the blocked pattern, that the query hits. */
  function SqlHit(rules: SqlRules, q: Query, env: Env): Option<Denial> {
    var i := FirstListed(rules.blockStatements, CommandText(q.command), 0);
    if i < |rules.blockStatements|
    then Some(Denial("block-statement", "SQL statement blocked: " + rules.blockStatements[i]))
    else
      var k := FirstPattern(rules.blockPatterns, q.rawSql, env, 0);
      if k < |rules.blockPatterns|
      then Some(Denial("block-pattern", "SQL pattern blocked: " + rules.blockPatterns[k]))
      else None
  }

  /** `apply_monitor`: a refusal blocks, or under monitor mode is only logged. */
  function Judged(d: Denial, mode: Mode): Result {
    if mode == Monitor then Result(Log, d.rule, "[monitor] " + d.reason, true)
    else Result(Block, d.rule, d.reason, false)
  }

  const NO_CONFIG := Result(Block, "no-config", "Policy config unavailable", false)
  const UNKNOWN_COMMAND := Result(Block, "unknown-command", "Unknown SQL command blocked", false)
  const NO_ACCESS_RULE := Result(Block, "no-access-rule", "No matching access rule for user/IP", false)

  /** The outcome for a session that matched `rule`, given what the SQL rules logged. */
  function DecideUnder(c: Config, rule: AccessRule, hit: Option<Denial>, q: Query, s: Session, env: Env): Result {
    var d := FirstRefusal(0, c, rule, q, s, env);
    if d.Some? then Judged(d.value, rule.mode)
    else if hit.Some? then Judged(hit.value, Monitor)
    else Result(Allow, "access-rule:" + rule.user, "Access allowed", false)
  }

  function Decide(config: Option<Config>, q: Query, s: Session, env: Env): Result {
    if config.None? then NO_CONFIG
    else if q.command == Unknown then UNKNOWN_COMMAND
    else
      var c := config.value;
      var hit := SqlHit(c.sql, q, env);
      if hit.Some? && c.sql.mode == Enforce then Judged(hit.value, Enforce)
      else
        var i := FirstRule(c.access, s, env, 0);
        if i == |c.access| then NO_ACCESS_RULE else DecideUnder(c, c.access[i], hit, q, s, env)
  }

  /** The access rule an explanation names: none for a verdict reached before the rules, or by the SQL rules. */
  function RuleNamed(config: Option<Config>, q: Query, s: Session, env: Env): string {
    if config.None? || q.command == Unknown then ""
    else
      var c := config.value;
      var hit, i := SqlHit(c.sql, q, env), FirstRule(c.access, s, env, 0);
      if (hit.Some? && c.sql.mode == Enforce) || i == |c.access| then ""
      else if hit.Some? && FirstRefusal(0, c, c.access[i], q, s, env).None? then ""
      else c.access[i].user + "@" + c.access[i].cidr
  }

  // --------------------------------------------------------------------- the engine

  /** `apply_monitor`, as `evaluate` writes it */
  function ApplyMonitor(r: Result, mode: Mode): Result {
    if mode == Monitor && r.action == Block
    then r.(action := Log, monitor := true, reason := "[monitor] " + r.reason)
    else r
  }

  /** `apply_monitor_explain`, as `explain` writes it */
  function ApplyMonitorExplain(r: Explanation, mode: Mode): Explanation {
    if mode == Monitor && r.result.action == Block
    then r.(result := r.result.(action := Log, monitor := true, reason := "[monitor] " + r.result.reason))
    else r
  }

  /** The cascade written out. */
  lemma CascadeOrder(c: Config, rule: AccessRule, q: Query, s: Session, env: Env)
    ensures FirstRefusal(0, c, rule, q, s, env) ==
      if OperationBlocked(rule, q, s).Some? then OperationBlocked(rule, q, s)
      else if OutsideHours(rule, s, env).Some? then OutsideHours(rule, s, env)
      else if TableDenied(rule, q).Some? then TableDenied(rule, q)
      else if OperationDenied(rule, q).Some? then OperationDenied(rule, q)
      else FirstRefusal(4, c, rule, q, s, env)
    ensures FirstRefusal(4, c, rule, q, s, env) ==
      if DynamicSqlBlocked(c, q).Some? then DynamicSqlBlocked(c, q)
      else if ProcedureDenied(c, q).Some? then ProcedureDenied(c, q)
      else if CreateAlterBlocked(c, q).Some? then CreateAlterBlocked(c, q)
      else if SchemaBlocked(c, q).Some? then SchemaBlocked(c, q)
      else None
  {
    hide OperationBlocked, OutsideHours, TableDenied, OperationDenied;
    hide DynamicSqlBlocked, ProcedureDenied, CreateAlterBlocked, SchemaBlocked;
  }

  class PolicyEngine {
    var config: Option<Config>
    var version: nat

    constructor (initial: Option<Config>)
      ensures config == initial && version == 0
    {
      config, version := initial, 0;
    }

    /** `reload` without a version: the version falls back to 0. */
    method Reload(next: Option<Config>)
      modifies this
      ensures config == next && version == 0
    {
      config := next;
      version := 0;
    }

    /** `reload` with a version */
    method ReloadVersion(next: Option<Config>, v: nat)
      modifies this
      ensures config == next && version == v
    {
      Reload(next);
      version := v;
    }

    /** `evaluate`, up to the choice of the access rule */
    method Evaluate(q: Query, s: Session, env: Env) returns (r: Result)
      ensures r == Decide(config, q, s, env)
    {
      hide IEquals, IpInCidr, DecideUnder, CommandText, FirstListed, FirstPattern, FirstRule, FirstRefusal;
      if config.None? {
        return Result(Block, "no-config", "Policy config unavailable", false);
      }
      var c := config.value;
      if q.command == Unknown {
        return Result(Block, "unknown-command", "Unknown SQL command blocked", false);
      }
      var cmd := CommandText(q.command);
      var logged: Option<Result> := None;
      var i := 0;
      while i < |c.sql.blockStatements|
        invariant i <= |c.sql.blockStatements| && logged == None
        invariant forall j :: 0 <= j < i ==> !IEquals(cmd, c.sql.blockStatements[j])
      {
        if IEquals(cmd, c.sql.blockStatements[i]) {
          r := Result(Block, "block-statement", "SQL statement blocked: " + c.sql.blockStatements[i], false);
          if c.sql.mode == Monitor {
            r := r.(action := Log, monitor := true, reason := "[monitor] " + r.reason);
            logged := Some(r);
          } else {
            return r;
          }
          break;
        }
        i := i + 1;
      }
      if logged.None? {
        i := 0;
        while i < |c.sql.blockPatterns|
          invariant i <= |c.sql.blockPatterns| && logged == None
          invariant forall j :: 0 <= j < i ==> env.regex(c.sql.blockPatterns[j], q.rawSql) != Matches
        {
          if env.regex(c.sql.blockPatterns[i], q.rawSql) == Matches {
            r := Result(Block, "block-pattern", "SQL pattern blocked: " + c.sql.blockPatterns[i], false);
            if c.sql.mode == Monitor {
              r := r.(action := Log, monitor := true, reason := "[monitor] " + r.reason);
              logged := Some(r);
            } else {
              return r;
            }
            break;
          }
          i := i + 1;
        }
      }
      i := 0;
      while i < |c.access|
        invariant i <= |c.access|
        invariant forall j :: 0 <= j < i ==> !RuleMatches(c.access[j], s, env)
      {
        var userMatch := c.access[i].user == s.user || c.access[i].user == "*";
        if userMatch && (c.access[i].cidr == "" || IpInCidr(s.ip, c.access[i].cidr, env)) {
          break;
        }
        i := i + 1;
      }
      if i == |c.access| {
        return Result(Block, "no-access-rule", "No matching access rule for user/IP", false);
      }
      r := EvaluateRule(c, c.access[i], logged, SqlHit(c.sql, q, env), q, s, env);
    }

    /** `evaluate`, from the blocked operations of the chosen rule to its allowed operations */
    method EvaluateRule(c: Config, rule: AccessRule, logged: Option<Result>, ghost hit: Option<Denial>,
                        q: Query, s: Session, env: Env) returns (r: Result)
      requires logged == if hit.Some? then Some(Judged(hit.value, Monitor)) else None
      ensures r == DecideUnder(c, rule, hit, q, s, env)
    {
      hide IEquals, Listed, ParseTimeRange, WithinTimeRange, FirstRefusal, FirstListed, FirstForeign, CommandText;
      hide DynamicSqlBlocked, ProcedureDenied, CreateAlterBlocked, SchemaBlocked;
      CascadeOrder(c, rule, q, s, env);
      var cmd := CommandText(q.command);
      var i := 0;
      while i < |rule.blockedOperations|
        invariant i <= |rule.blockedOperations|
        invariant forall j :: 0 <= j < i ==> !IEquals(cmd, rule.blockedOperations[j])
      {
        if IEquals(cmd, rule.blockedOperations[i]) {
          return ApplyMonitor(
            Result(Block, "blocked-operation",
                   "Operation blocked for user '" + s.user + "': " + rule.blockedOperations[i], false),
            rule.mode);
        }
        i := i + 1;
      }
      assert OperationBlocked(rule, q, s).None?;
      if rule.time.Some? {
        var range := ParseTimeRange(rule.time.value.allowRange);
        if range.None? {
          return ApplyMonitor(
            Result(Block, "time-restriction",
                   "Invalid time restriction configuration for user '" + s.user + "'", false),
            rule.mode);
        }
        if !WithinTimeRange(range.value, rule.time.value.zone, env) {
          return ApplyMonitor(Result(Block, "time-restriction", "Access outside allowed hours", false), rule.mode);
        }
      }
      assert OutsideHours(rule, s, env).None?;
      if "*" !in rule.allowedTables && q.tables != [] {
        i := 0;
        while i < |q.tables|
          invariant i <= |q.tables| && forall j :: 0 <= j < i ==> Listed(rule.allowedTables, q.tables[j])
        {
          if !Listed(rule.allowedTables, q.tables[i]) {
            return ApplyMonitor(Result(Block, "table-denied", "Table access denied: " + q.tables[i], false), rule.mode);
          }
          i := i + 1;
        }
      }
      assert TableDenied(rule, q).None?;
      if rule.allowedOperations != [] {
        if "*" !in rule.allowedOperations && !Listed(rule.allowedOperations, cmd) {
          return ApplyMonitor(Result(Block, "operation-denied", "Operation not allowed: " + cmd, false), rule.mode);
        }
      }
      r := EvaluateProcedures(c, rule, logged, hit, q, s, env);
    }

    /** `evaluate`, from the procedure control on */
    method EvaluateProcedures(c: Config, rule: AccessRule, logged: Option<Result>, ghost hit: Option<Denial>,
                              q: Query, s: Session, env: Env) returns (r: Result)
      requires logged == if hit.Some? then Some(Judged(hit.value, Monitor)) else None
      requires FirstRefusal(0, c, rule, q, s, env) == FirstRefusal(4, c, rule, q, s, env)
      ensures r == DecideUnder(c, rule, hit, q, s, env)
    {
      hide IEquals, Listed, InSystemSchema, FirstRefusal, CommandText;
      hide OperationBlocked, OutsideHours, TableDenied, OperationDenied;
      CascadeOrder(c, rule, q, s, env);
      var cmd := CommandText(q.command);
      if q.command == Prepare || q.command == Execute {
        if c.procedures.blockDynamicSql {
          return ApplyMonitor(
            Result(Block, "procedure-dynamic-sql", "Dynamic SQL (" + cmd + ") blocked by policy", false),
            rule.mode);
        }
      }
      if q.command == Call {
        var name := if q.tables == [] then "" else q.tables[0];
        if c.procedures.mode == "whitelist" {
          if !Listed(c.procedures.list, name) {
            return ApplyMonitor(
              Result(Block, "procedure-whitelist", "Procedure '" + name + "' not in whitelist", false),
              rule.mode);
          }
        } else if c.procedures.mode == "blacklist" {
          if Listed(c.procedures.list, name) {
            return ApplyMonitor(
              Result(Block, "procedure-blacklist", "Procedure '" + name + "' is blacklisted", false),
              rule.mode);
          }
        }
      }
      if q.command == Create || q.command == Alter {
        if c.procedures.blockCreateAlter {
          return ApplyMonitor(
            Result(Block, "procedure-create-alter", cmd + " blocked by procedure policy", false),
            rule.mode);
        }
      }
      if c.blockSchemaAccess {
        var i := 0;
        while i < |q.tables|
          invariant i <= |q.tables| && forall j :: 0 <= j < i ==> !InSystemSchema(q.tables[j])
        {
          if InSystemSchema(q.tables[i]) {
            return ApplyMonitor(Result(Block, "schema-access", "Schema access blocked", false), rule.mode);
          }
          i := i + 1;
        }
      }
      if logged.Some? {
        return logged.value;
      }
      return Result(Allow, "access-rule:" + rule.user, "Access allowed", false);
    }

    /** `explain`, up to the choice of the access rule */
    method Explain(q: Query, s: Session, env: Env) returns (r: Explanation)
      ensures r == Explanation(Decide(config, q, s, env), RuleNamed(config, q, s, env))
    {
      hide IEquals, IpInCidr, DecideUnder, CommandText, FirstListed, FirstPattern, FirstRule, FirstRefusal;
      if config.None? {
        return Explanation(Result(Block, "no-config", "Policy config unavailable", false), "");
      }
      var c := config.value;
      if q.command == Unknown {
        return Explanation(Result(Block, "unknown-command", "Unknown SQL command blocked", false), "");
      }
      var cmd := CommandText(q.command);
      var logged: Option<Explanation> := None;
      var i := 0;
      while i < |c.sql.blockStatements|
        invariant i <= |c.sql.blockStatements| && logged == None
        invariant forall j :: 0 <= j < i ==> !IEquals(cmd, c.sql.blockStatements[j])
      {
        if IEquals(cmd, c.sql.blockStatements[i]) {
          r := Explanation(
            Result(Block, "block-statement", "SQL statement blocked: " + c.sql.blockStatements[i], false), "");
          if c.sql.mode == Monitor {
            r := r.(result := r.result.(action := Log, monitor := true, reason := "[monitor] " + r.result.reason));
            logged := Some(r);
          } else {
            return r;
          }
          break;
        }
        i := i + 1;
      }
      if logged.None? {
        i := 0;
        while i < |c.sql.blockPatterns|
          invariant i <= |c.sql.blockPatterns| && logged == None
          invariant forall j :: 0 <= j < i ==> env.regex(c.sql.blockPatterns[j], q.rawSql) != Matches
        {
          if env.regex(c.sql.blockPatterns[i], q.rawSql) == Matches {
            r := Explanation(
              Result(Block, "block-pattern", "SQL pattern blocked: " + c.sql.blockPatterns[i], false), "");
            if c.sql.mode == Monitor {
              r := r.(result := r.result.(action := Log, monitor := true, reason := "[monitor] " + r.result.reason));
              logged := Some(r);
            } else {
              return r;
            }
            break;
          }
          i := i + 1;
        }
      }
      i := 0;
      while i < |c.access|
        invariant i <= |c.access|
        invariant forall j :: 0 <= j < i ==> !RuleMatches(c.access[j], s, env)
      {
        var userMatch := c.access[i].user == s.user || c.access[i].user == "*";
        if userMatch && (c.access[i].cidr == "" || IpInCidr(s.ip, c.access[i].cidr, env)) {
          break;
        }
        i := i + 1;
      }
      if i == |c.access| {
        return Explanation(Result(Block, "no-access-rule", "No matching access rule for user/IP", false), "");
      }
      r := ExplainRule(c, c.access[i], logged, SqlHit(c.sql, q, env), q, s, env);
    }

    /** `explain`, from the blocked operations of the chosen rule to its allowed operations */
    method ExplainRule(c: Config, rule: AccessRule, logged: Option<Explanation>, ghost hit: Option<Denial>,
                       q: Query, s: Session, env: Env) returns (r: Explanation)
      requires logged == if hit.Some? then Some(Explanation(Judged(hit.value, Monitor), "")) else None
      ensures r.result == DecideUnder(c, rule, hit, q, s, env)
      ensures r.accessRule
        == if hit.Some? && FirstRefusal(0, c, rule, q, s, env).None? then "" else rule.user + "@" + rule.cidr
    {
      hide IEquals, Listed, ParseTimeRange, WithinTimeRange, FirstRefusal, FirstListed, FirstForeign, CommandText;
      hide DynamicSqlBlocked, ProcedureDenied, CreateAlterBlocked, SchemaBlocked;
      CascadeOrder(c, rule, q, s, env);
      var cmd := CommandText(q.command);
      var id := rule.user + "@" + rule.cidr;
      var i := 0;
      while i < |rule.blockedOperations|
        invariant i <= |rule.blockedOperations|
        invariant forall j :: 0 <= j < i ==> !IEquals(cmd, rule.blockedOperations[j])
      {
        if IEquals(cmd, rule.blockedOperations[i]) {
          return ApplyMonitorExplain(
            Explanation(Result(Block, "blocked-operation",
                               "Operation blocked for user '" + s.user + "': " + rule.blockedOperations[i], false), id),
            rule.mode);
        }
        i := i + 1;
      }
      assert OperationBlocked(rule, q, s).None?;
      if rule.time.Some? {
        var range := ParseTimeRange(rule.time.value.allowRange);
        if range.None? {
          return ApplyMonitorExplain(
            Explanation(Result(Block, "time-restriction",
                               "Invalid time restriction configuration for user '" + s.user + "'", false), id),
            rule.mode);
        }
        if !WithinTimeRange(range.value, rule.time.value.zone, env) {
          return ApplyMonitorExplain(
            Explanation(Result(Block, "time-restriction", "Access outside allowed hours", false), id),
            rule.mode);
        }
      }
      assert OutsideHours(rule, s, env).None?;
      if "*" !in rule.allowedTables && q.tables != [] {
        i := 0;
        while i < |q.tables|
          invariant i <= |q.tables| && forall j :: 0 <= j < i ==> Listed(rule.allowedTables, q.tables[j])
        {
          if !Listed(rule.allowedTables, q.tables[i]) {
            return ApplyMonitorExplain(
              Explanation(Result(Block, "table-denied", "Table access denied: " + q.tables[i], false), id),
              rule.mode);
          }
          i := i + 1;
        }
      }
      assert TableDenied(rule, q).None?;
      if rule.allowedOperations != [] {
        if "*" !in rule.allowedOperations && !Listed(rule.allowedOperations, cmd) {
          return ApplyMonitorExplain(
            Explanation(Result(Block, "operation-denied", "Operation not allowed: " + cmd, false), id),
            rule.mode);
        }
      }
      r := ExplainProcedures(c, rule, logged, hit, q, s, env);
    }

    /** `explain`, from the procedure control on */
    method ExplainProcedures(c: Config, rule: AccessRule, logged: Option<Explanation>, ghost hit: Option<Denial>,
                             q: Query, s: Session, env: Env) returns (r: Explanation)
      requires logged == if hit.Some? then Some(Explanation(Judged(hit.value, Monitor), "")) else None
      requires FirstRefusal(0, c, rule, q, s, env) == FirstRefusal(4, c, rule, q, s, env)
      ensures r.result == DecideUnder(c, rule, hit, q, s, env)
      ensures r.accessRule
        == if hit.Some? && FirstRefusal(0, c, rule, q, s, env).None? then "" else rule.user + "@" + rule.cidr
    {
      hide IEquals, Listed, InSystemSchema, FirstRefusal, CommandText;
      hide OperationBlocked, OutsideHours, TableDenied, OperationDenied;
      CascadeOrder(c, rule, q, s, env);
      var cmd := CommandText(q.command);
      var id := rule.user + "@" + rule.cidr;
      if q.command == Prepare || q.command == Execute {
        if c.procedures.blockDynamicSql {
          return ApplyMonitorExplain(
            Explanation(Result(Block, "procedure-dynamic-sql",
                               "Dynamic SQL (" + cmd + ") blocked by policy", false), id),
            rule.mode);
        }
      }
      if q.command == Call {
        var name := if q.tables == [] then "" else q.tables[0];
        if c.procedures.mode == "whitelist" {
          if !Listed(c.procedures.list, name) {
            return ApplyMonitorExplain(
              Explanation(Result(Block, "procedure-whitelist", "Procedure '" + name + "' not in whitelist", false), id),
              rule.mode);
          }
        } else if c.procedures.mode == "blacklist" {
          if Listed(c.procedures.list, name) {
            return ApplyMonitorExplain(
              Explanation(Result(Block, "procedure-blacklist", "Procedure '" + name + "' is blacklisted", false), id),
              rule.mode);
          }
        }
      }
      if q.command == Create || q.command == Alter {
        if c.procedures.blockCreateAlter {
          return ApplyMonitorExplain(
            Explanation(Result(Block, "procedure-create-alter", cmd + " blocked by procedure policy", false), id),
            rule.mode);
        }
      }
      if c.blockSchemaAccess {
        var i := 0;
        while i < |q.tables|
          invariant i <= |q.tables| && forall j :: 0 <= j < i ==> !InSystemSchema(q.tables[j])
        {
          if InSystemSchema(q.tables[i]) {
            return ApplyMonitorExplain(
              Explanation(Result(Block, "schema-access", "Schema access blocked", false), id),
              rule.mode);
          }
          i := i + 1;
        }
      }
      if logged.Some? {
        return logged.value;
      }
      return Explanation(Result(Allow, "access-rule:" + rule.user, "Access allowed", false), id);
    }

    /** `evaluate_error`: a query that did not parse is blocked under every configuration. */
    method EvaluateError(message: string) returns (r: Result)
      ensures r == Result(Block, "parse-error", "Parser error: " + message, false)
    {
      r := Result(Block, "parse-error", "Parser error: " + message, false);
    }

    /** `explain_error` */
    method ExplainError(message: string) returns (r: Explanation)
      ensures r == Explanation(Result(Block, "parse-error", "Parser error: " + message, false), "")
    {
      r := Explanation(Result(Block, "parse-error", "Parser error: " + message, false), "");
    }
  }
}
