/**
 What the policy engine's decisions promise, over every configuration, query, session and environment.
 */
module PolicyLaws {
  import opened Bytes
  import opened PolicyText
  import opened Policy

  // ------------------------------------------------------- when a query is allowed

  /** The matched rule and the global sections let the query through. */
  ghost predicate RulePermits(c: Config, rule: AccessRule, q: Query, env: Env) {
    && (forall i :: 0 <= i < |rule.blockedOperations| ==> !IEquals(CommandText(q.command), rule.blockedOperations[i]))
    && (rule.time.Some? ==>
          && ParseTimeRange(rule.time.value.allowRange).Some?
          && WithinTimeRange(ParseTimeRange(rule.time.value.allowRange).value, rule.time.value.zone, env))
    && ("*" in rule.allowedTables || forall i :: 0 <= i < |q.tables| ==> Listed(rule.allowedTables, q.tables[i]))
    && (rule.allowedOperations == [] || "*" in rule.allowedOperations
        || Listed(rule.allowedOperations, CommandText(q.command)))
    && (q.command.Prepare? || q.command.Execute? ==> !c.procedures.blockDynamicSql)
    && (q.command.Call? && c.procedures.mode == "whitelist" ==>
          Listed(c.procedures.list, if q.tables == [] then "" else q.tables[0]))
    && (q.command.Call? && c.procedures.mode == "blacklist" ==>
          !Listed(c.procedures.list, if q.tables == [] then "" else q.tables[0]))
    && (q.command.Create? || q.command.Alter? ==> !c.procedures.blockCreateAlter)
    && (c.blockSchemaAccess ==> forall i :: 0 <= i < |q.tables| ==> !InSystemSchema(q.tables[i]))
  }

  ghost predicate IsFirstMatch(rules: seq<AccessRule>, s: Session, env: Env, i: nat) {
    i < |rules| && RuleMatches(rules[i], s, env) && forall j :: 0 <= j < i ==> !RuleMatches(rules[j], s, env)
  }

  /** No blocked statement and no blocked pattern applies. */
  ghost predicate SqlPermits(rules: SqlRules, q: Query, env: Env) {
    && (forall i :: 0 <= i < |rules.blockStatements| ==> !IEquals(CommandText(q.command), rules.blockStatements[i]))
    && (forall i :: 0 <= i < |rules.blockPatterns| ==> env.regex(rules.blockPatterns[i], q.rawSql) != Matches)
  }

  ghost predicate Permitted(c: Config, q: Query, s: Session, env: Env) {
    && q.command != Unknown
    && SqlPermits(c.sql, q, env)
    && exists i: nat :: IsFirstMatch(c.access, s, env, i) && RulePermits(c, c.access[i], q, env)
  }

  lemma NoRefusal(c: Config, rule: AccessRule, q: Query, s: Session, env: Env)
    ensures FirstRefusal(0, c, rule, q, s, env) == None <==> RulePermits(c, rule, q, env)
  {
    hide IEquals, Listed, ParseTimeRange, WithinTimeRange, InSystemSchema, FirstRefusal;
    CascadeOrder(c, rule, q, s, env);
  }

  lemma SqlHitNone(rules: SqlRules, q: Query, env: Env)
    ensures SqlHit(rules, q, env) == None <==> SqlPermits(rules, q, env)
  {
  }

  lemma FirstMatchFound(rules: seq<AccessRule>, s: Session, env: Env, i: nat)
    requires IsFirstMatch(rules, s, env, i)
    ensures FirstRule(rules, s, env, 0) == i
  {
  }

  /** A query is allowed exactly when no check fails, whatever the modes. */
  lemma AllowedExactly(config: Option<Config>, q: Query, s: Session, env: Env)
    ensures Decide(config, q, s, env).action == Allow <==> config.Some? && Permitted(config.value, q, s, env)
  {
    hide SqlHit, SqlPermits, FirstRefusal, RulePermits, RuleMatches;
    if config.Some? {
      var c := config.value;
      SqlHitNone(c.sql, q, env);
      var k := FirstRule(c.access, s, env, 0);
      if k < |c.access| {
        NoRefusal(c, c.access[k], q, s, env);
        assert IsFirstMatch(c.access, s, env, k);
      }
      if i: nat :| IsFirstMatch(c.access, s, env, i) && RulePermits(c, c.access[i], q, env) {
        FirstMatchFound(c.access, s, env, i);
      }
    }
  }

  /** Check `k` is the first from `from` on to fail, and refuses with `d`. */
  ghost predicate FailsFirst(from: nat, k: nat, c: Config, rule: AccessRule, q: Query, s: Session, env: Env, d: Denial)
  {
    && from <= k < |CHECKS| && Refusal(CHECKS[k], c, rule, q, s, env) == Some(d)
    && forall j :: from <= j < k ==> Refusal(CHECKS[j], c, rule, q, s, env) == None
  }

  /** The refusal reported is that of the lowest-numbered check that fails. */
  lemma {:induction false} LowestFailing(from: nat, c: Config, rule: AccessRule, q: Query, s: Session, env: Env,
                                         d: Denial)
    requires from <= |CHECKS|
    ensures FirstRefusal(from, c, rule, q, s, env) == Some(d)
       <==> exists k: nat :: FailsFirst(from, k, c, rule, q, s, env, d)
    decreases |CHECKS| - from
  {
    hide Refusal;
    if from < |CHECKS| {
      var next := from + 1;
      LowestFailing(next, c, rule, q, s, env, d);
      if Refusal(CHECKS[from], c, rule, q, s, env) == Some(d) {
        assert FailsFirst(from, from, c, rule, q, s, env, d);
      } else if k: nat :| FailsFirst(from, k, c, rule, q, s, env, d) {
        assert FailsFirst(next, k, c, rule, q, s, env, d);
      } else if k: nat :| FailsFirst(next, k, c, rule, q, s, env, d) {
        assert Refusal(CHECKS[from], c, rule, q, s, env) == None ==> FailsFirst(from, k, c, rule, q, s, env, d);
      }
    }
  }

  /** The first matching rule is `i`, and the query gets past the SQL rules, if only because they are in monitor
      mode. */
  ghost predicate Judges(c: Config, q: Query, s: Session, env: Env, i: nat) {
    IsFirstMatch(c.access, s, env, i) && (SqlPermits(c.sql, q, env) || c.sql.mode == Monitor)
  }

  /** What is only logged: a refusal by a rule in monitor mode, or a blocked statement or pattern under SQL rules in
      monitor mode that the rule itself permits. */
  ghost predicate Logs(c: Config, q: Query, s: Session, env: Env, i: nat) {
    && Judges(c, q, s, env, i)
    && if RulePermits(c, c.access[i], q, env) then !SqlPermits(c.sql, q, env) else c.access[i].mode == Monitor
  }

  /** The action exactly, from the checks and the modes: it is the mode of the rule that decides over the rule's own
      refusals, and the mode of the SQL rules over theirs. */
  lemma ActionExactly(config: Option<Config>, q: Query, s: Session, env: Env)
    ensures var action := Decide(config, q, s, env).action;
      var known := config.Some? && q.command != Unknown;
      && (action == Allow <==> config.Some? && Permitted(config.value, q, s, env))
      && (action == Log <==> known && exists i: nat :: Logs(config.value, q, s, env, i))
      && (action == Block <==>
            && !(config.Some? && Permitted(config.value, q, s, env))
            && !(known && exists i: nat :: Logs(config.value, q, s, env, i)))
  {
    hide SqlHit, SqlPermits, FirstRefusal, RulePermits, RuleMatches, Permitted;
    AllowedExactly(config, q, s, env);
    if config.Some? {
      var c := config.value;
      SqlHitNone(c.sql, q, env);
      var k := FirstRule(c.access, s, env, 0);
      if k < |c.access| {
        NoRefusal(c, c.access[k], q, s, env);
        assert IsFirstMatch(c.access, s, env, k);
        assert q.command != Unknown && Decide(config, q, s, env).action == Log ==> Logs(c, q, s, env, k);
      }
      if i: nat :| Logs(c, q, s, env, i) {
        FirstMatchFound(c.access, s, env, i);
      }
    }
  }

  /** The name of a refusal by the matched rule, check by check. */
  ghost function RefusalId(c: Config, rule: AccessRule, q: Query, env: Env): string {
    if exists i :: 0 <= i < |rule.blockedOperations| && IEquals(CommandText(q.command), rule.blockedOperations[i])
    then "blocked-operation"
    else if rule.time.Some?
      && (ParseTimeRange(rule.time.value.allowRange).None?
          || !WithinTimeRange(ParseTimeRange(rule.time.value.allowRange).value, rule.time.value.zone, env))
    then "time-restriction"
    else if "*" !in rule.allowedTables
      && exists i :: 0 <= i < |q.tables| && !Listed(rule.allowedTables, q.tables[i])
    then "table-denied"
    else if rule.allowedOperations != [] && "*" !in rule.allowedOperations
      && !Listed(rule.allowedOperations, CommandText(q.command))
    then "operation-denied"
    else if (q.command.Prepare? || q.command.Execute?) && c.procedures.blockDynamicSql then "procedure-dynamic-sql"
    else if q.command.Call? && c.procedures.mode == "whitelist" && !Listed(c.procedures.list, ProcedureName(q))
    then "procedure-whitelist"
    else if q.command.Call? && c.procedures.mode == "blacklist" && Listed(c.procedures.list, ProcedureName(q))
    then "procedure-blacklist"
    else if (q.command.Create? || q.command.Alter?) && c.procedures.blockCreateAlter then "procedure-create-alter"
    else "schema-access"
  }

  /** Which rule a verdict names, by the first thing that is wrong with the query. */
  lemma RuleIdExactly(c: Config, q: Query, s: Session, env: Env)
    requires q.command != Unknown
    ensures var r := Decide(Some(c), q, s, env);
      var statement := exists i :: 0 <= i < |c.sql.blockStatements|
                         && IEquals(CommandText(q.command), c.sql.blockStatements[i]);
      && (forall i: nat :: Judges(c, q, s, env, i) && !RulePermits(c, c.access[i], q, env) ==>
            r.rule == RefusalId(c, c.access[i], q, env))
      && (forall i: nat ::
            Judges(c, q, s, env, i) && RulePermits(c, c.access[i], q, env) && SqlPermits(c.sql, q, env) ==>
            r.rule == "access-rule:" + c.access[i].user)
      && (!SqlPermits(c.sql, q, env)
          && (c.sql.mode == Enforce || exists i: nat :: Judges(c, q, s, env, i) && RulePermits(c, c.access[i], q, env))
          ==> r.rule == if statement then "block-statement" else "block-pattern")
  {
    hide IEquals, RulePermits, RuleMatches, FirstRefusal, RefusalId, CommandText, SqlHit, SqlPermits;
    SqlHitId(c.sql, q, env);
    var k := FirstRule(c.access, s, env, 0);
    forall i: nat | IsFirstMatch(c.access, s, env, i) ensures i == k {
      FirstMatchFound(c.access, s, env, i);
    }
    if k < |c.access| {
      NoRefusal(c, c.access[k], q, s, env);
      if !RulePermits(c, c.access[k], q, env) {
        RefusalNamed(c, c.access[k], q, s, env);
      }
    }
  }

  lemma SqlHitId(rules: SqlRules, q: Query, env: Env)
    ensures SqlHit(rules, q, env) == None <==> SqlPermits(rules, q, env)
    ensures var hit := SqlHit(rules, q, env);
      var statement := exists i :: 0 <= i < |rules.blockStatements|
                         && IEquals(CommandText(q.command), rules.blockStatements[i]);
      hit.Some? ==> hit.value.rule == if statement then "block-statement" else "block-pattern"
  {
    hide IEquals, CommandText;
    SqlHitNone(rules, q, env);
  }

  lemma RefusalNamed(c: Config, rule: AccessRule, q: Query, s: Session, env: Env)
    requires !RulePermits(c, rule, q, env)
    ensures FirstRefusal(0, c, rule, q, s, env).Some?
    ensures FirstRefusal(0, c, rule, q, s, env).value.rule == RefusalId(c, rule, q, env)
  {
    hide IEquals, Listed, ParseTimeRange, WithinTimeRange, InSystemSchema, FirstRefusal, CommandText;
    NoRefusal(c, rule, q, s, env);
    CascadeOrder(c, rule, q, s, env);
  }

  /** Entry `k` is the first of the list that is the given name up to case. */
  ghost predicate FirstNamed(names: seq<string>, name: string, k: nat) {
    k < |names| && IEquals(name, names[k]) && forall j :: 0 <= j < k ==> !IEquals(name, names[j])
  }

  ghost predicate FirstMatching(patterns: seq<string>, sql: string, env: Env, k: nat) {
    && k < |patterns| && env.regex(patterns[k], sql) == Matches
    && forall j :: 0 <= j < k ==> env.regex(patterns[j], sql) != Matches
  }

  ghost predicate FirstUnlisted(tables: seq<string>, allowed: seq<string>, k: nat) {
    k < |tables| && !Listed(allowed, tables[k]) && forall j :: 0 <= j < k ==> Listed(allowed, tables[j])
  }

  function Marked(text: string, mode: Mode): string {
    if mode == Monitor then "[monitor] " + text else text
  }

  /** What a verdict of the SQL rules says: the first blocked statement, or the first pattern that matches. */
  lemma SqlReason(c: Config, q: Query, s: Session, env: Env, k: nat)
    requires q.command != Unknown
    requires c.sql.mode == Enforce || exists i: nat :: Judges(c, q, s, env, i) && RulePermits(c, c.access[i], q, env)
    ensures FirstNamed(c.sql.blockStatements, CommandText(q.command), k) ==>
      Decide(Some(c), q, s, env).reason == Marked("SQL statement blocked: " + c.sql.blockStatements[k], c.sql.mode)
    ensures (&& (forall i :: 0 <= i < |c.sql.blockStatements| ==>
                   !IEquals(CommandText(q.command), c.sql.blockStatements[i]))
             && FirstMatching(c.sql.blockPatterns, q.rawSql, env, k)) ==>
      Decide(Some(c), q, s, env).reason == Marked("SQL pattern blocked: " + c.sql.blockPatterns[k], c.sql.mode)
  {
    hide IEquals, RulePermits, RuleMatches, FirstRefusal, CommandText;
    if c.sql.mode == Monitor {
      var i: nat :| Judges(c, q, s, env, i) && RulePermits(c, c.access[i], q, env);
      FirstMatchFound(c.access, s, env, i);
      NoRefusal(c, c.access[i], q, s, env);
    }
  }

  /** What a refusal by the matched rule names: the first blocked operation, or, the rule having none, no restriction of
      hours and no wildcard, the first table outside its list. */
  lemma RuleReason(c: Config, q: Query, s: Session, env: Env, i: nat, k: nat)
    requires q.command != Unknown && Judges(c, q, s, env, i)
    ensures FirstNamed(c.access[i].blockedOperations, CommandText(q.command), k) ==>
      Decide(Some(c), q, s, env).reason == Marked(
        "Operation blocked for user '" + s.user + "': " + c.access[i].blockedOperations[k], c.access[i].mode)
    ensures (&& c.access[i].blockedOperations == [] && c.access[i].time == None && "*" !in c.access[i].allowedTables
             && FirstUnlisted(q.tables, c.access[i].allowedTables, k)) ==>
      Decide(Some(c), q, s, env).reason == Marked("Table access denied: " + q.tables[k], c.access[i].mode)
  {
    hide IEquals, RuleMatches, FirstRefusal, CommandText, Listed, SqlHit, SqlPermits;
    hide OperationDenied, DynamicSqlBlocked, ProcedureDenied, CreateAlterBlocked, SchemaBlocked;
    FirstMatchFound(c.access, s, env, i);
    SqlHitNone(c.sql, q, env);
    CascadeOrder(c, c.access[i], q, s, env);
  }

  // ------------------------------------------------------------------ monitor mode

  function EnforcedRules(rules: seq<AccessRule>): (r: seq<AccessRule>)
    ensures |r| == |rules| && forall i :: 0 <= i < |rules| ==> r[i] == rules[i].(mode := Enforce)
  {
    if rules == [] then [] else [rules[0].(mode := Enforce)] + EnforcedRules(rules[1..])
  }

  /** The same policy with every mode set to enforce. */
  function Enforced(c: Config): Config {
    c.(access := EnforcedRules(c.access), sql := c.sql.(mode := Enforce))
  }

  /** Modes play no part in the refusals. */
  lemma RefusalIgnoresMode(c: Config, d: Config, rule: AccessRule, mode: Mode, q: Query, s: Session, env: Env)
    requires c.procedures == d.procedures && c.blockSchemaAccess == d.blockSchemaAccess
    ensures FirstRefusal(0, c, rule, q, s, env) == FirstRefusal(0, d, rule.(mode := mode), q, s, env)
  {
    hide IEquals, Listed, ParseTimeRange, WithinTimeRange, InSystemSchema;
    hide FirstRefusal, FirstListed, FirstForeign, CommandText;
    CascadeOrder(c, rule, q, s, env);
    CascadeOrder(d, rule.(mode := mode), q, s, env);
  }

  lemma SqlHitIgnoresMode(rules: SqlRules, mode: Mode, q: Query, env: Env)
    ensures SqlHit(rules.(mode := mode), q, env) == SqlHit(rules, q, env)
  {
  }

  lemma FirstRuleIgnoresMode(a: seq<AccessRule>, b: seq<AccessRule>, s: Session, env: Env)
    requires |a| == |b| && forall i :: 0 <= i < |a| ==> a[i].user == b[i].user && a[i].cidr == b[i].cidr
    ensures FirstRule(a, s, env, 0) == FirstRule(b, s, env, 0)
  {
  }

  /** Monitor mode is a pure downgrade: with every mode set to enforce, a query the SQL rules catch is
      blocked by them, a logged refusal becomes the same refusal enforced, and nothing else changes. */
  lemma MonitorIsDowngrade(c: Config, q: Query, s: Session, env: Env)
    ensures var was, now := Decide(Some(c), q, s, env), Decide(Some(Enforced(c)), q, s, env);
      && (was.action == Allow ==> now == was)
      && (was.action == Log ==> now.action == Block)
      && (was.action == Block ==> now.action == Block)
      && (SqlPermits(c.sql, q, env) && was.action == Block ==> now == was)
      && (SqlPermits(c.sql, q, env) && was.action == Log ==>
            now.rule == was.rule && was.reason == "[monitor] " + now.reason)
      && (q.command != Unknown && SqlHit(c.sql, q, env).Some? ==> now == Judged(SqlHit(c.sql, q, env).value, Enforce))
  {
    hide SqlHit, SqlPermits, FirstRefusal, FirstRule;
    var e := Enforced(c);
    SqlHitNone(c.sql, q, env);
    SqlHitIgnoresMode(c.sql, Enforce, q, env);
    FirstRuleIgnoresMode(c.access, e.access, s, env);
    var i := FirstRule(c.access, s, env, 0);
    if i < |c.access| {
      RefusalIgnoresMode(c, e, c.access[i], Enforce, q, s, env);
    }
  }

  /** Two policies that differ only in their modes allow the same queries. */
  lemma ModesNeverAllow(c: Config, d: Config, q: Query, s: Session, env: Env)
    requires Enforced(c) == Enforced(d)
    ensures Decide(Some(c), q, s, env).action == Allow <==> Decide(Some(d), q, s, env).action == Allow
  {
    hide Decide, Enforced;
    MonitorIsDowngrade(c, q, s, env);
    MonitorIsDowngrade(d, q, s, env);
  }

  /** The monitor flag marks exactly the logged verdicts. */
  lemma MonitorFlag(config: Option<Config>, q: Query, s: Session, env: Env)
    ensures var r := Decide(config, q, s, env); r.monitor <==> r.action == Log
  {
    hide SqlHit, FirstRefusal, FirstRule;
  }

  /** A missing configuration, an unknown command and a session without a rule are blocked in every mode. */
  lemma FailsClosed(config: Option<Config>, q: Query, s: Session, env: Env)
    requires || config.None?
             || q.command == Unknown
             || forall i :: 0 <= i < |config.value.access| ==> !RuleMatches(config.value.access[i], s, env)
    ensures Decide(config, q, s, env).action == Block
  {
  }

  // ------------------------------------------------------------------- monotonicity

  /** Only the first matching rule counts: all other rules may as well not be there. */
  lemma FirstMatchDecides(c: Config, q: Query, s: Session, env: Env, i: nat)
    requires IsFirstMatch(c.access, s, env, i)
    ensures Decide(Some(c), q, s, env) == Decide(Some(c.(access := [c.access[i]])), q, s, env)
  {
    hide SqlHit, FirstRefusal, RuleMatches;
    var d := c.(access := [c.access[i]]);
    FirstMatchFound(c.access, s, env, i);
    FirstMatchFound(d.access, s, env, 0);
    RefusalIgnoresMode(c, d, c.access[i], c.access[i].mode, q, s, env);
  }

  /** Appending access rules changes nothing for a session that some rule already matched. */
  lemma AppendedRulesIgnored(c: Config, more: seq<AccessRule>, q: Query, s: Session, env: Env)
    requires exists i :: 0 <= i < |c.access| && RuleMatches(c.access[i], s, env)
    ensures Decide(Some(c.(access := c.access + more)), q, s, env) == Decide(Some(c), q, s, env)
  {
    hide Decide, RuleMatches;
    var d := c.(access := c.access + more);
    var k := FirstRule(c.access, s, env, 0);
    assert forall j :: 0 <= j < |c.access| ==> d.access[j] == c.access[j];
    assert IsFirstMatch(c.access, s, env, k) && IsFirstMatch(d.access, s, env, k);
    FirstMatchDecides(c, q, s, env, k);
    FirstMatchDecides(d, q, s, env, k);
  }

  predicate Includes(small: seq<string>, large: seq<string>) {
    forall i :: 0 <= i < |small| ==> small[i] in large
  }

  /** `d` is `c` with blocked statements, patterns and per-rule operations added anywhere. */
  predicate Stricter(c: Config, d: Config) {
    && Includes(c.sql.blockStatements, d.sql.blockStatements)
    && Includes(c.sql.blockPatterns, d.sql.blockPatterns)
    && d.procedures == c.procedures && d.blockSchemaAccess == c.blockSchemaAccess
    && |d.access| == |c.access|
    && forall i :: 0 <= i < |c.access| ==>
         && Includes(c.access[i].blockedOperations, d.access[i].blockedOperations)
         && d.access[i] == c.access[i].(blockedOperations := d.access[i].blockedOperations)
  }

  lemma StricterRule(c: Config, d: Config, i: nat, q: Query, env: Env)
    requires Stricter(c, d) && i < |d.access| && RulePermits(d, d.access[i], q, env)
    ensures RulePermits(c, c.access[i], q, env)
  {
  }

  lemma StricterSql(c: SqlRules, d: SqlRules, q: Query, env: Env)
    requires Includes(c.blockStatements, d.blockStatements) && Includes(c.blockPatterns, d.blockPatterns)
    requires SqlPermits(d, q, env)
    ensures SqlPermits(c, q, env)
  {
  }

  /** Adding things to block never turns a refusal, or a log entry, into an allow. */
  lemma StricterNeverAllows(c: Config, d: Config, q: Query, s: Session, env: Env)
    requires Stricter(c, d) && Decide(Some(d), q, s, env).action == Allow
    ensures Decide(Some(c), q, s, env).action == Allow
  {
    hide Decide, SqlPermits, RulePermits, IpInCidr, Includes;
    AllowedExactly(Some(c), q, s, env);
    AllowedExactly(Some(d), q, s, env);
    StricterSql(c.sql, d.sql, q, env);
    var i: nat :| IsFirstMatch(d.access, s, env, i) && RulePermits(d, d.access[i], q, env);
    assert forall j :: 0 <= j < |c.access| ==> RuleMatches(c.access[j], s, env) == RuleMatches(d.access[j], s, env);
    assert IsFirstMatch(c.access, s, env, i);
    StricterRule(c, d, i, q, env);
  }

  /** Nor, under the same modes, does it turn a block into a log entry. */
  lemma StricterKeepsBlock(c: Config, d: Config, q: Query, s: Session, env: Env)
    requires Stricter(c, d) && c.sql.mode == d.sql.mode && Decide(Some(c), q, s, env).action == Block
    ensures Decide(Some(d), q, s, env).action == Block
  {
    hide SqlHit, SqlPermits, FirstRefusal, FirstRule, RulePermits, Includes;
    SqlHitNone(c.sql, q, env);
    SqlHitNone(d.sql, q, env);
    FirstRuleIgnoresMode(c.access, d.access, s, env);
    if SqlPermits(d.sql, q, env) {
      StricterSql(c.sql, d.sql, q, env);
    }
    var i := FirstRule(c.access, s, env, 0);
    if i < |c.access| {
      NoRefusal(c, c.access[i], q, s, env);
      NoRefusal(d, d.access[i], q, s, env);
      if RulePermits(d, d.access[i], q, env) {
        StricterRule(c, d, i, q, env);
      }
    }
  }

  // ------------------------------------------------------------------- time windows

  /** A rule with a time restriction passes the hours check exactly if its text writes a window and the local time lies
      on that arc of the day. */
  lemma HoursMeaning(rule: AccessRule, s: Session, env: Env)
    requires rule.time.Some?
    ensures OutsideHours(rule, s, env).None? <==>
      exists range :: RangeWritten(rule.time.value.allowRange, range) && InWindow(range, rule.time.value.zone, env)
  {
    hide ParseTimeRange, WithinTimeRange, RangeWritten, InWindow;
    var text, zone := rule.time.value.allowRange, rule.time.value.zone;
    var range := ParseTimeRange(text);
    if range.Some? {
      RangeRead(text, range.value);
      WindowMeaning(range.value, zone, env);
    }
    if r :| RangeWritten(text, r) && InWindow(r, zone, env) {
      RangeRead(text, r);
    }
  }

  /** The window holds the local time of the zone, an empty zone standing for UTC; an unknown one has no time. */
  predicate InWindow(range: TimeRange, zone: string, env: Env) {
    var now := if zone == "" then env.clock("Etc/UTC") else env.clock(zone);
    now.Some? && OnArc(range, now.value)
  }

  lemma WindowMeaning(range: TimeRange, zone: string, env: Env)
    requires Minutes(range.start) < 1440 && Minutes(range.end) < 1440
    ensures WithinTimeRange(range, zone, env) <==> InWindow(range, zone, env)
  {
    hide WithinTimeRange, OnArc;
    WindowIsArc(range, zone, env);
  }

  // ----------------------------------------------------------- matching, in plain terms

  /** A rule is for a session exactly if it names its user or everyone, and no block or one that covers its address. */
  lemma RuleMatchMeaning(rule: AccessRule, s: Session, env: Env)
    ensures RuleMatches(rule, s, env) <==>
      && (rule.user == "*" || rule.user == s.user)
      && (rule.cidr == ""
          || exists net, number, p: nat :: BlockWritten(rule.cidr, net, number, p) && Covers(s.ip, net, p, env))
  {
    hide IpInCidr, BlockWritten, Covers;
    CidrMeaning(s.ip, rule.cidr, env);
  }

  /** The tables of the four system schemas, by the name before the first dot or the whole name, in any case. */
  lemma SchemaMeaning(schema: string, rest: string)
    requires '.' !in schema
    ensures var system := IEquals(schema, "information_schema") || IEquals(schema, "mysql")
                       || IEquals(schema, "performance_schema") || IEquals(schema, "sys");
      (InSystemSchema(schema + ['.'] + rest) <==> system) && (InSystemSchema(schema) <==> system)
  {
    hide IEquals;
    FindsFirst(schema, '.', rest, 0);
    assert SchemaPart(schema + ['.'] + rest) == schema;
    assert schema[..|schema|] == schema;
    SchemaNames(schema);
    SchemaNames(schema + ['.'] + rest);
  }

  lemma SchemaNames(table: string)
    ensures var part := SchemaPart(table);
      var system := IEquals(part, "information_schema") || IEquals(part, "mysql")
                 || IEquals(part, "performance_schema") || IEquals(part, "sys");
      InSystemSchema(table) <==> system
  {
    hide IEquals, SchemaPart;
    assert SCHEMAS[0] == "information_schema" && SCHEMAS[1] == "mysql";
    assert SCHEMAS[2] == "performance_schema" && SCHEMAS[3] == "sys";
  }

  /** A name is listed exactly if some entry is the same text up to the case of letters. */
  lemma ListedMeaning(names: seq<string>, name: string)
    ensures Listed(names, name) <==> exists i :: 0 <= i < |names| && SameText(name, names[i])
  {
    hide IEquals, SameText;
    forall i | 0 <= i < |names| ensures IEquals(name, names[i]) <==> SameText(name, names[i]) {
      IEqualsMeaning(name, names[i]);
    }
  }
}
