/**
 The token server's `exchangeToken`: the order of its decisions over the limiter and the
 allowlist, one request after another.
 */
module TokenExchange {
  import opened Wrappers
  import RateLimit
  import TokenStore
  import KeyPath

  // The invite token of a body; None if the body is not what it should be.  now is the
  // limiter's clock, unix the allowlist's.
  datatype Request = Request(isPost: bool, isTLS: bool, address: string, body: Option<string>, now: int, unix: int)

  datatype Status = MethodNotAllowed | UpgradeRequired | TooManyRequests | BadRequest | Unauthorized | Issued

  datatype Config = Config(rps: int, consumeOnIssue: bool, hmac: string -> TokenStore.hash)

  datatype State = State(windows: RateLimit.entries, table: TokenStore.rows)

  // What one request does when it is alone.
  function Respond(cfg: Config, s: State, r: Request): (Status, State) {
    if !r.isPost then (MethodNotAllowed, s)
    else if !r.isTLS then (UpgradeRequired, s)
    else
      var (ok, e) := RateLimit.AllowEntry(cfg.rps, RateLimit.Find(s.windows, r.address), r.now);
      var t := s.(windows := s.windows[r.address := e]);
      if !ok then (TooManyRequests, t)
      else if r.body.None? || KeyPath.TrimSpace(r.body.value) == "" then (BadRequest, t)
      else
        var h := cfg.hmac(KeyPath.TrimSpace(r.body.value));
        if TokenStore.Check(t.table, h, r.unix).Some? then (Unauthorized, t)
        else (Issued, if cfg.consumeOnIssue then t.(table := TokenStore.Consume(t.table, h)) else t)
  }

  method ExchangeToken(limiter: RateLimit.RateLimiter, store: TokenStore.Store, cfg: Config, r: Request)
    returns (status: Status)
    requires limiter.rps == cfg.rps
    modifies limiter`windows, store
    ensures (status, State(limiter.windows, store.table)) == Respond(cfg, State(old(limiter.windows), old(store.table)), r)
  {
    if !r.isPost {
      return MethodNotAllowed;
    }
    if !r.isTLS {
      return UpgradeRequired;
    }
    var allowed := limiter.Allow(r.address, r.now);
    if !allowed {
      return TooManyRequests;
    }
    if r.body.None? {
      return BadRequest;
    }
    var token := KeyPath.TrimSpace(r.body.value);
    if token == "" {
      return BadRequest;
    }
    var err := store.ValidateAndConsume(cfg.hmac(token), r.unix, cfg.consumeOnIssue);
    if err.Some? {
      return Unauthorized;
    }
    return Issued;
  }

  // ---- Whole runs ----

  function Last(rs: seq<Request>): Request
    requires rs != []
  {
    rs[|rs| - 1]
  }

  function Init(rs: seq<Request>): seq<Request>
    requires rs != []
  {
    rs[..|rs| - 1]
  }

  function After(cfg: Config, table: TokenStore.rows, rs: seq<Request>): State {
    if rs == [] then State(map[], table) else Respond(cfg, After(cfg, table, Init(rs)), Last(rs)).1
  }

  // The answer to the last request of a run.
  function Answer(cfg: Config, table: TokenStore.rows, rs: seq<Request>): Status
    requires rs != []
  {
    Respond(cfg, After(cfg, table, Init(rs)), Last(rs)).0
  }

  // The requests the limiter gets to see.
  function Calls(rs: seq<Request>): seq<RateLimit.Call> {
    if rs == [] then []
    else
      Calls(Init(rs))
      + (if Last(rs).isPost && Last(rs).isTLS then [RateLimit.Call(Last(rs).address, Last(rs).now)] else [])
  }

  // An answer that says something about the body or the token.
  predicate IsRevealing(status: Status) {
    status == BadRequest || status == Unauthorized || status == Issued
  }

  function Revealing(cfg: Config, table: TokenStore.rows, rs: seq<Request>, address: string, from: int, to: int): nat {
    if rs == [] then 0
    else
      Revealing(cfg, table, Init(rs), address, from, to)
      + (if Last(rs).address == address && from <= Last(rs).now <= to && IsRevealing(Answer(cfg, table, rs)) then 1 else 0)
  }

  lemma CallsSnoc(calls: seq<RateLimit.Call>, c: RateLimit.Call)
    ensures RateLimit.Init(calls + [c]) == calls && RateLimit.Last(calls + [c]) == c
  {
  }

  lemma PastTheLimiter(cfg: Config, s: State, r: Request)
    ensures var (status, t) := Respond(cfg, s, r);
      if r.isPost && r.isTLS then
        var (ok, e) := RateLimit.AllowEntry(cfg.rps, RateLimit.Find(s.windows, r.address), r.now);
        t.windows == s.windows[r.address := e] && (IsRevealing(status) <==> ok)
      else t == s && !IsRevealing(status)
  {
    hide KeyPath.TrimSpace, TokenStore.Check, TokenStore.Consume, RateLimit.AllowEntry;
  }

  // Requests get past the limiter exactly when their calls are allowed.
  lemma {:induction false} RevealingIsAllowed(cfg: Config, table: TokenStore.rows, rs: seq<Request>,
                                              address: string, from: int, to: int)
    ensures After(cfg, table, rs).windows == RateLimit.After(cfg.rps, Calls(rs))
    ensures Revealing(cfg, table, rs, address, from, to) == RateLimit.Allowed(cfg.rps, Calls(rs), address, from, to)
    decreases |rs|
  {
    if rs != [] {
      hide Respond, IsRevealing, RateLimit.AllowEntry;
      RevealingIsAllowed(cfg, table, Init(rs), address, from, to);
      PastTheLimiter(cfg, After(cfg, table, Init(rs)), Last(rs));
      if Last(rs).isPost && Last(rs).isTLS {
        CallsSnoc(Calls(Init(rs)), RateLimit.Call(Last(rs).address, Last(rs).now));
      } else {
        assert Calls(rs) == Calls(Init(rs));
      }
    }
  }

  ghost predicate InOrder(rs: seq<Request>) {
    forall i, j :: 0 <= i <= j < |rs| ==> rs[i].now <= rs[j].now
  }

  lemma {:induction false} CallsInOrder(rs: seq<Request>)
    requires InOrder(rs)
    ensures RateLimit.InOrder(Calls(rs))
    ensures forall c :: c in Calls(rs) ==> exists k :: 0 <= k < |rs| && rs[k].now == c.now
    decreases |rs|
  {
    if rs != [] {
      CallsInOrder(Init(rs));
      var calls := Calls(rs);
      forall c | c in calls ensures exists k :: 0 <= k < |rs| && rs[k].now == c.now {
        if c in Calls(Init(rs)) {
          var k :| 0 <= k < |Init(rs)| && Init(rs)[k].now == c.now;
          assert rs[k].now == c.now;
        } else {
          assert rs[|rs| - 1].now == c.now;
        }
      }
    }
  }

  // Over every run, one address gets at most this many answers about tokens in any
  // interval of whole seconds, guessed tokens included, whatever the allowlist holds.
  lemma GuessesAreBounded(cfg: Config, table: TokenStore.rows, rs: seq<Request>, address: string, from: int, seconds: nat)
    requires cfg.rps >= 1 && InOrder(rs)
    ensures Revealing(cfg, table, rs, address, from, from + seconds * RateLimit.SECOND)
         <= (seconds + 1) * cfg.rps - (if seconds > 0 then 1 else 0)
  {
    CallsInOrder(rs);
    RevealingIsAllowed(cfg, table, rs, address, from, from + seconds * RateLimit.SECOND);
    RateLimit.RateBoundInSeconds(cfg.rps, Calls(rs), address, from, seconds);
  }

  // How often a token was issued for.
  function TimesIssued(cfg: Config, table: TokenStore.rows, rs: seq<Request>, h: TokenStore.hash): nat {
    if rs == [] then 0
    else
      TimesIssued(cfg, table, Init(rs), h)
      + (if Answer(cfg, table, rs) == Issued && cfg.hmac(KeyPath.TrimSpace(Last(rs).body.value)) == h then 1 else 0)
  }

  // A token that has been issued for once is marked from then on.
  lemma {:induction false} IssuedIsMarked(cfg: Config, table: TokenStore.rows, rs: seq<Request>, h: TokenStore.hash)
    requires cfg.consumeOnIssue
    ensures TimesIssued(cfg, table, rs, h) <= 1
    ensures var t := After(cfg, table, rs).table;
      TimesIssued(cfg, table, rs, h) == 1 ==> h in t && t[h].consumed
    decreases |rs|
  {
    if rs != [] {
      hide KeyPath.TrimSpace, RateLimit.AllowEntry;
      IssuedIsMarked(cfg, table, Init(rs), h);
    }
  }

  ghost predicate IsSingleUse(cfg: Config) {
    forall table, rs, h :: TimesIssued(cfg, table, rs, h) <= 1
  }

  // One request after another, no token is issued for twice if and only if the server
  // consumes tokens, which it does only when it is told to.
  lemma SingleUseIff(cfg: Config)
    ensures IsSingleUse(cfg) <==> cfg.consumeOnIssue
  {
    if cfg.consumeOnIssue {
      forall table, rs, h ensures TimesIssued(cfg, table, rs, h) <= 1 {
        IssuedIsMarked(cfg, table, rs, h);
      }
    } else {
      var h := cfg.hmac("t");
      var table := map[h := TokenStore.Row(0, false, false)];
      var a := Request(true, true, "a", Some("t"), 0, 0);
      var rs := [a, a.(address := "b")];
      assert KeyPath.TrimSpace("t") == "t";
      assert Init(rs) == [a] && Init([a]) == [];
      assert Answer(cfg, table, [a]) == Issued;
      assert TimesIssued(cfg, table, [a], h) == 1;
      assert Answer(cfg, table, rs) == Issued;
      assert TimesIssued(cfg, table, rs, h) == 2;
    }
  }

  // ---- Every answer of a run ----

  // What a run leaves of a row: only the mark of its use.
  lemma {:induction false} RowsKept(cfg: Config, table: TokenStore.rows, rs: seq<Request>, h: TokenStore.hash)
    ensures var t := After(cfg, table, rs).table;
      && (h in t <==> h in table)
      && (h in t ==> t[h].expiresAt == table[h].expiresAt && t[h].revoked == table[h].revoked
                     && (t[h].consumed <==> table[h].consumed || (cfg.consumeOnIssue && TimesIssued(cfg, table, rs, h) > 0)))
    decreases |rs|
  {
    if rs != [] {
      hide KeyPath.TrimSpace, RateLimit.AllowEntry;
      RowsKept(cfg, table, Init(rs), h);
    }
  }

  // A token that may be issued for after a run: known, not revoked, not expired, not
  // marked at the start and, if tokens are consumed, not issued for since.
  predicate IsGood(cfg: Config, table: TokenStore.rows, rs: seq<Request>, h: TokenStore.hash, unix: int) {
    && h in table && !table[h].revoked && unix <= table[h].expiresAt && !table[h].consumed
    && (cfg.consumeOnIssue ==> TimesIssued(cfg, table, rs, h) == 0)
  }

  lemma LimiterSays(cfg: Config, table: TokenStore.rows, rs: seq<Request>)
    requires rs != [] && Last(rs).isPost && Last(rs).isTLS
    ensures Calls(rs) != []
    ensures var e := RateLimit.Find(After(cfg, table, Init(rs)).windows, Last(rs).address);
      RateLimit.AllowEntry(cfg.rps, e, Last(rs).now).0 <==> RateLimit.IsAllowed(cfg.rps, Calls(rs))
  {
    hide RateLimit.AllowEntry, Respond, RateLimit.Find;
    RevealingIsAllowed(cfg, table, Init(rs), "", 0, 0);
    CallsSnoc(Calls(Init(rs)), RateLimit.Call(Last(rs).address, Last(rs).now));
  }

  lemma CheckSays(cfg: Config, table: TokenStore.rows, rs: seq<Request>, h: TokenStore.hash, unix: int)
    ensures TokenStore.Check(After(cfg, table, rs).table, h, unix).None? <==> IsGood(cfg, table, rs, h, unix)
  {
    hide After, TimesIssued;
    RowsKept(cfg, table, rs, h);
  }

  // The answer to every request of every run: method, transport, rate, body and token
  // decide, in this order.
  lemma AnswerIs(cfg: Config, table: TokenStore.rows, rs: seq<Request>)
    requires rs != []
    ensures Last(rs).isPost && Last(rs).isTLS ==> Calls(rs) != []
    ensures var r := Last(rs);
      Answer(cfg, table, rs)
      == if !r.isPost then MethodNotAllowed
         else if !r.isTLS then UpgradeRequired
         else if !RateLimit.IsAllowed(cfg.rps, Calls(rs)) then TooManyRequests
         else if r.body.None? || KeyPath.TrimSpace(r.body.value) == "" then BadRequest
         else if IsGood(cfg, table, Init(rs), cfg.hmac(KeyPath.TrimSpace(r.body.value)), r.unix) then Issued
         else Unauthorized
  {
    hide KeyPath.TrimSpace, RateLimit.AllowEntry, TokenStore.Check, IsGood, After, Calls, RateLimit.IsAllowed;
    var r := Last(rs);
    if r.isPost && r.isTLS {
      LimiterSays(cfg, table, rs);
      if r.body.Some? {
        CheckSays(cfg, table, Init(rs), cfg.hmac(KeyPath.TrimSpace(r.body.value)), r.unix);
      }
    }
  }
}
