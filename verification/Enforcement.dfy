/**
 From the client's packet to the server: how a session judges a query (`Session::run`,
 `src/proxy/session.cpp`), and what that means for what the server ever sees.
 */
module Enforcement {
  import opened Bytes
  import opened MysqlPacket
  import opened CommandLoop
  import opened SqlParser
  import opened Text
  import Handshake
  import HandshakeResponse
  import SqlScanner
  import SqlDialect
  import Policy
  import PolicyText
  import PolicyLaws

  /** What a query is judged by at the moment it arrives; the policy may be reloaded between two queries. */
  datatype Situation =
    Situation(config: Option<Policy.Config>, session: Policy.Session, env: PolicyText.Env, tables: Tables)

  /** The text of a COM_QUERY packet: what follows the command byte. */
  function SqlOf(p: Packet): string
    requires p.payload != []
  {
    seq(|p.payload| - 1, i requires 0 <= i < |p.payload| - 1 => p.payload[i + 1] as char)
  }

  /** The verdict on a query text. */
  function Judge(sql: string, at: Situation): Policy.Result {
    if Rejected(sql) then Policy.Result(Policy.Block, "parse-error", "Parser error: " + ErrorText(sql), false)
    else Policy.Decide(at.config, QueryOf(sql, at.tables), at.session, at.env)
  }

  /** The inspection of one query: parse, then ask the engine, or report the parse error to it. */
  method Inspect(engine: Policy.PolicyEngine, sql: string, session: Policy.Session, env: PolicyText.Env, tables: Tables)
    returns (r: Policy.Result)
    ensures r == Judge(sql, Situation(engine.config, session, env, tables))
  {
    hide Rejected, ErrorText, QueryOf, Policy.Decide;
    var parsed := SqlParser.Parse(sql, tables);
    match parsed {
      case ParseError(message) => r := engine.EvaluateError(message);
      case Parsed(query) => r := engine.Evaluate(query, session, env);
    }
  }

  /** The explanation of one query on the control socket (`handle_policy_explain`): whatever the text, the verdict it
      shows is the one a session of that user and address would get. */
  method ExplainQuery(engine: Policy.PolicyEngine, sql: string, session: Policy.Session, env: PolicyText.Env,
                      tables: Tables)
    returns (r: Policy.Explanation)
    ensures r.result == Judge(sql, Situation(engine.config, session, env, tables))
  {
    hide Rejected, ErrorText, QueryOf, Policy.Decide, Policy.RuleNamed;
    var parsed := SqlParser.Parse(sql, tables);
    match parsed {
      case ParseError(message) => r := engine.ExplainError(message);
      case Parsed(query) => r := engine.Explain(query, session, env);
    }
  }

  /** The verdicts of a session's world are the judgements of its queries. */
  predicate Inspected(w: World, at: seq<Situation>) {
    && WellFormed(w) && |at| == |w.client|
    && forall i :: 0 <= i < |w.client| && CommandOf(w.client[i]) == Query ==>
         w.verdicts[i] == VerdictOf(Judge(SqlOf(w.client[i]), at[i]))
  }

  function VerdictOf(r: Policy.Result): Verdict {
    Verdict(r.action == Policy.Block, r.monitor)
  }

  /** The query is one statement with a known command, and a policy in force has an access rule for the session. */
  ghost predicate Admissible(sql: string, at: Situation) {
    && !Rejected(sql) && CommandIn(sql) != Policy.Unknown && at.config.Some?
    && exists i :: 0 <= i < |at.config.value.access|
         && Policy.RuleMatches(at.config.value.access[i], at.session, at.env)
  }

  /** Whatever the modes, only admissible queries get a verdict other than block. */
  lemma OnlyAdmissiblePass(sql: string, at: Situation)
    requires Judge(sql, at).action != Policy.Block
    ensures Admissible(sql, at)
  {
    hide Rejected, ErrorText, CommandIn, Policy.Decide, Policy.RuleMatches;
    var q := QueryOf(sql, at.tables);
    if !Admissible(sql, at) {
      PolicyLaws.FailsClosed(at.config, q, at.session, at.env);
    }
  }

  /** A query of several statements, by the scanner's own reading of strings and comments, is blocked under every
      policy. */
  lemma SeveralStatementsBlocked(ts: seq<SqlScanner.Token>, tail: SqlScanner.Tail, at: Situation)
    requires SqlScanner.ValidText(ts, tail) && SqlScanner.MultiStatement(ts, tail)
    ensures Judge(SqlScanner.Print(ts, tail), at).action == Policy.Block
  {
    hide Strip, ErrorText, QueryOf, Policy.Decide, SqlScanner.Scan, SqlScanner.Print;
    SqlScanner.ScanAgrees(ts, tail);
  }

  /** So is one of several statements by MySQL's reading, if it is clear of what the two read differently. */
  lemma ClearStatementsBlocked(xs: seq<SqlDialect.Lexeme>, tail: SqlScanner.Tail, at: Situation)
    requires SqlDialect.ValidLexemes(xs, tail) && SqlDialect.Clear(xs, tail) && SqlDialect.SeveralStatements(xs, tail)
    ensures Judge(SqlDialect.PrintAll(xs, tail), at).action == Policy.Block
  {
    hide Strip, ErrorText, QueryOf, Policy.Decide, SqlScanner.Scan, SqlDialect.PrintAll, SqlDialect.Clear;
    SqlDialect.ScannerRight(xs, tail);
  }

  /** The patterns are searched in the text as the client sent it, byte for byte behind the command byte: one that
      matches is never allowed, and is blocked where the SQL rules are enforced. */
  lemma PatternsSeeClientText(p: Packet, text: string, at: Situation, k: nat)
    requires |p.payload| == 1 + |text| && forall i :: 0 <= i < |text| ==> text[i] == p.payload[i + 1] as char
    requires at.config.Some? && k < |at.config.value.sql.blockPatterns|
    requires at.env.regex(at.config.value.sql.blockPatterns[k], text) == PolicyText.Matches
    ensures Judge(SqlOf(p), at).action != Policy.Allow
    ensures at.config.value.sql.mode == Policy.Enforce ==> Judge(SqlOf(p), at).action == Policy.Block
  {
    hide Rejected, ErrorText, CommandIn, Policy.Decide;
    hide PolicyLaws.Permitted, PolicyLaws.RulePermits, PolicyLaws.IsFirstMatch;
    assert SqlOf(p) == text;
    var q := QueryOf(text, at.tables);
    NotPermitted(at.config.value, q, at.session, at.env, k);
    PolicyLaws.ActionExactly(at.config, q, at.session, at.env);
  }

  lemma NotPermitted(c: Policy.Config, q: Policy.Query, s: Policy.Session, env: PolicyText.Env, k: nat)
    requires k < |c.sql.blockPatterns| && env.regex(c.sql.blockPatterns[k], q.rawSql) == PolicyText.Matches
    ensures !PolicyLaws.SqlPermits(c.sql, q, env) && !PolicyLaws.Permitted(c, q, s, env)
  {
    hide PolicyLaws.RulePermits, PolicyLaws.IsFirstMatch, PolicyText.IEquals;
  }

  /** A query whose first word is no keyword, in any case, is blocked under every policy. */
  lemma UnrecognizedBlocked(lead: seq<SqlScanner.Token>, word: string, rest: string, at: Situation)
    requires AreGaps(lead) && IsWord(word) && EndsWord(word, rest)
    requires var sql := SqlScanner.Print(lead, SqlScanner.Whole) + word + rest;
      forall c: Policy.Command :: c != Policy.Unknown ==>
        ToUpper(Keyword(word, AllSpace(Strip(sql, |sql| - |rest|)))) != Policy.CommandText(c)
    ensures Judge(SqlScanner.Print(lead, SqlScanner.Whole) + word + rest, at).action == Policy.Block
  {
    hide Rejected, ErrorText, SqlScanner.Print, IsWord, EndsWord, ToUpper, CommandIn, KeywordToCommand;
    hide Policy.CommandText, Policy.Decide, Strip, Keyword, AllSpace;
    var sql := SqlScanner.Print(lead, SqlScanner.Whole) + word + rest;
    ClassifiesFirstWord(lead, word, rest);
    KeywordRoundTrip(CommandIn(sql), ToUpper(Keyword(word, AllSpace(Strip(sql, |sql| - |rest|)))));
    PolicyLaws.FailsClosed(at.config, QueryOf(sql, at.tables), at.session, at.env);
  }

  /** What a packet that reached the server may be. */
  ghost predicate MayReachServer(w: World, at: seq<Situation>, i: nat)
    requires Inspected(w, at) && i < |w.client|
  {
    match CommandOf(w.client[i])
    case Quit => true
    case Passed => true
    case Query => Admissible(SqlOf(w.client[i]), at[i]) && Judge(SqlOf(w.client[i]), at[i]).action != Policy.Block
    case _ => false
  }

  lemma ForwardedMay(w: World, at: seq<Situation>, i: nat)
    requires Inspected(w, at) && i < |w.client| && Forwarded(w, i)
    ensures MayReachServer(w, at, i)
  {
    hide Judge, Admissible, SqlOf;
    if CommandOf(w.client[i]) == Query {
      OnlyAdmissiblePass(SqlOf(w.client[i]), at[i]);
    }
  }

  /** Over every session, however it ends: each packet the server was sent is a client packet that may reach it, and
      they come in the order the client sent them. */
  lemma NothingElseReachesServer(w: World, at: seq<Situation>, k: nat, stop: Stop, log: Log) returns (idx: seq<nat>)
    requires Inspected(w, at) && k <= |w.client| && StopsWith(w, k, stop) && Closed(w, k, stop, log)
    ensures Increasing(idx) && |idx| == |log.toServer|
    ensures forall j :: 0 <= j < |idx| ==>
      idx[j] < |w.client| && log.toServer[j] == w.client[idx[j]] && MayReachServer(w, at, idx[j])
  {
    hide MayReachServer, Judge, SqlOf, Forwarded;
    idx := ServerSeesExactlyForwarded(w, k);
    forall j | 0 <= j < |idx| ensures MayReachServer(w, at, idx[j]) {
      ForwardedMay(w, at, idx[j]);
    }
    if stop in {QuitSent, RelayFailed} {
      LastMay(w, at, k, stop);
      idx := idx + [k];
    }
  }

  lemma LastMay(w: World, at: seq<Situation>, k: nat, stop: Stop)
    requires Inspected(w, at) && k <= |w.client| && StopsWith(w, k, stop) && stop in {QuitSent, RelayFailed}
    ensures k < |w.client| && MayReachServer(w, at, k)
  {
    hide Inspected, Admissible, Judge;
    if CommandOf(w.client[k]) != Quit {
      ForwardedMay(w, at, k);
    }
  }

  /** Where every mode is enforce, a query is forwarded exactly when it is one statement that the policy permits. */
  lemma EnforcedForwardsExactlyPermitted(w: World, at: seq<Situation>, i: nat)
    requires Inspected(w, at) && i < |w.client| && CommandOf(w.client[i]) == Query
    requires at[i].config.Some? ==> PolicyLaws.Enforced(at[i].config.value) == at[i].config.value
    ensures var sql := SqlOf(w.client[i]);
      Forwarded(w, i) <==>
        && !Rejected(sql) && at[i].config.Some?
        && PolicyLaws.Permitted(at[i].config.value, QueryOf(sql, at[i].tables), at[i].session, at[i].env)
  {
    hide Rejected, ErrorText, QueryOf, SqlOf, Policy.Decide, PolicyLaws.Permitted, PolicyLaws.Enforced;
    var sql, s := SqlOf(w.client[i]), at[i];
    var q := QueryOf(sql, s.tables);
    PolicyLaws.AllowedExactly(s.config, q, s.session, s.env);
    if s.config.Some? {
      PolicyLaws.MonitorIsDowngrade(s.config.value, q, s.session, s.env);
    } else {
      PolicyLaws.FailsClosed(s.config, q, s.session, s.env);
    }
  }

  /** Bytes of a name as the text the policy compares. */
  function TextOf(b: seq<byte>): string {
    seq(|b|, i requires 0 <= i < |b| => b[i] as char)
  }

  /** The user the access rules are matched with is the user the server authenticates: in every session whose handshake
      succeeded, a query that is not blocked falls under a rule for everyone or for the user in the very response the
      server was shown. */
  lemma RuleForAuthenticatedUser(h: Handshake.World, ctx0: Handshake.Context, toClient: seq<byte>, toServer: seq<byte>,
                                 ctx: Handshake.Context, sql: string, at: Situation)
    requires Handshake.Left(h, Handshake.Handshake(h), ctx0, true, toClient, toServer, ctx)
    requires at.session.user == TextOf(ctx.user) && Judge(sql, at).action != Policy.Block
    ensures var e := Handshake.Handshake(h);
      && 1 <= e.toServer <= |h.client|
      && toServer == Frame(Handshake.ShownToServer(h.client, e.toServer))
      && var fields := HandshakeResponse.Extract(Handshake.ShownToServer(h.client, e.toServer)[0].payload);
         && fields.Some? && at.config.Some?
         && exists i :: 0 <= i < |at.config.value.access|
              && Policy.RuleMatches(at.config.value.access[i], at.session, at.env)
              && at.config.value.access[i].user in {"*", TextOf(fields.value.user)}
  {
    hide Judge, TextOf, Handshake.Handshake, Handshake.Left, Handshake.ShownToServer, Frame, HandshakeResponse.Extract;
    Handshake.ServerSeesSessionUser(h, ctx0, toClient, toServer, ctx, 11);
    OnlyAdmissiblePass(sql, at);
  }
}
