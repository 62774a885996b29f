/**
 The allowlist of invite tokens: `ValidateAndConsume` and `Insert`, alone and as the
 interleaved steps of concurrent transactions.

 Isolation is that of SQLite in WAL mode.  A transaction reads from the snapshot its
 first read takes; one transaction at a time may write; and a transaction that has read
 cannot begin to write once another has committed after its snapshot.
 */
module TokenStore {
  import opened Wrappers

  type hash = seq<int>

  datatype Row = Row(expiresAt: int, revoked: bool, consumed: bool)

  type rows = map<hash, Row>

  datatype TokenError = NotFound | Revoked | Expired | Consumed | Busy | Cancelled

  // The checks on a row, in their order.
  function Check(table: rows, h: hash, now: int): Option<TokenError> {
    if h !in table then Some(NotFound)
    else if table[h].revoked then Some(Revoked)
    else if table[h].expiresAt < now then Some(Expired)
    else if table[h].consumed then Some(Consumed)
    else None
  }

  // UPDATE ... SET consumed = 1 WHERE token_hash = h AND consumed = 0: how many rows it
  // changes is not looked at.
  function Consume(table: rows, h: hash): rows {
    if h in table then table[h := table[h].(consumed := true)] else table
  }

  /** The store as one caller sees it when nobody else does anything. */
  class Store {
    var table: rows

    constructor ()
      ensures table == map[]
    {
      table := map[];
    }

    method ValidateAndConsume(h: hash, now: int, consume: bool) returns (err: Option<TokenError>)
      modifies this
      ensures err == Check(old(table), h, now)
      ensures err.None? <==>
                h in old(table) && !old(table)[h].revoked && now <= old(table)[h].expiresAt && !old(table)[h].consumed
      ensures table == if err.None? && consume then Consume(old(table), h) else old(table)
      // A consumed token is refused from then on.
      ensures err.None? && consume ==>
                forall later :: Check(table, h, later) == Some(Expired) || Check(table, h, later) == Some(Consumed)
    {
      if h !in table { return Some(NotFound); }
      var row := table[h];
      if row.revoked { return Some(Revoked); }
      if row.expiresAt < now { return Some(Expired); }
      if row.consumed { return Some(Consumed); }
      if consume {
        table := table[h := row.(consumed := true)];
      }
      return None;
    }

    // INSERT OR REPLACE: a token inserted again can be used again.
    method Insert(h: hash, expiresAt: int)
      modifies this
      ensures table == old(table)[h := Row(expiresAt, false, false)]
    {
      table := table[h := Row(expiresAt, false, false)];
    }
  }

  // ---- Concurrent transactions ----

  datatype Transaction =
    | Passed(h: hash, consume: bool, snapshot: nat)   // read and checked
    | Writing(h: hash)                                // UPDATE done, not committed
    | Succeeded(h: hash, consume: bool)
    | Failed(h: hash, error: TokenError)

  // version counts the commits so far; lock is the transaction that may write; uses
  // counts, for each token, the consuming exchanges that succeeded since its last insert.
  datatype System = System(table: rows, version: nat, lock: Option<nat>, txs: map<nat, Transaction>, uses: map<hash, nat>)

  datatype Step =
    | Begin(id: nat, h: hash, now: int, consume: bool)   // BeginTx, SELECT and the checks
    | Update(id: nat)
    | Commit(id: nat)
    | Rollback(id: nat)                                  // time limit or a lost connection
    | Insert(h: hash, expiresAt: int)
    | Revoke(h: hash)                                    // by an administrator
    | Remove(h: hash)

  const EMPTY := System(map[], 0, None, map[], map[])

  function Uses(s: System, h: hash): nat {
    if h in s.uses then s.uses[h] else 0
  }

  // A step of a run.  With isolated false, a transaction may begin to write although
  // another has committed after its snapshot.
  predicate IsEnabled(s: System, e: Step) {
    match e
    case Begin(id, _, _, _) => id !in s.txs
    case Update(id) => id in s.txs && s.txs[id].Passed? && s.txs[id].consume
    case Commit(id) => id in s.txs && (s.txs[id].Writing? || (s.txs[id].Passed? && !s.txs[id].consume))
    case Rollback(id) => id in s.txs && (s.txs[id].Writing? || s.txs[id].Passed?)
    case _ => s.lock.None?
  }

  function Next(isolated: bool, s: System, e: Step): System
    requires IsEnabled(s, e)
  {
    match e
    case Begin(id, h, now, consume) =>
      (match Check(s.table, h, now)
       case Some(error) => s.(txs := s.txs[id := Failed(h, error)])
       case None => s.(txs := s.txs[id := Passed(h, consume, s.version)]))
    case Update(id) =>
      var t := s.txs[id];
      if s.lock.Some? || (isolated && t.snapshot != s.version) then s.(txs := s.txs[id := Failed(t.h, Busy)])
      else s.(lock := Some(id), txs := s.txs[id := Writing(t.h)])
    case Commit(id) =>
      var t := s.txs[id];
      if t.Passed? then s.(txs := s.txs[id := Succeeded(t.h, false)])
      else System(Consume(s.table, t.h), s.version + 1, None, s.txs[id := Succeeded(t.h, true)],
                  s.uses[t.h := Uses(s, t.h) + 1])
    case Rollback(id) =>
      var t := s.txs[id];
      s.(lock := if t.Writing? then None else s.lock, txs := s.txs[id := Failed(t.h, Cancelled)])
    case Insert(h, expiresAt) =>
      s.(table := s.table[h := Row(expiresAt, false, false)], version := s.version + 1, uses := s.uses[h := 0])
    case Revoke(h) =>
      s.(table := if h in s.table then s.table[h := s.table[h].(revoked := true)] else s.table,
         version := s.version + 1)
    case Remove(h) =>
      s.(table := s.table - {h}, version := s.version + 1)
  }

  ghost predicate IsRun(isolated: bool, s: System, es: seq<Step>)
    decreases |es|
  {
    es == [] || (IsEnabled(s, es[0]) && IsRun(isolated, Next(isolated, s, es[0]), es[1..]))
  }

  function After(isolated: bool, s: System, es: seq<Step>): System
    requires IsRun(isolated, s, es)
    decreases |es|
  {
    if es == [] then s else After(isolated, Next(isolated, s, es[0]), es[1..])
  }

  // ---- Single use ----

  // A row is consumed exactly when one exchange since its insertion succeeded; a
  // snapshot that is still current, and a write under way, are of an unconsumed row.
  ghost predicate Inv(s: System) {
    && (forall h :: Uses(s, h) <= 1)
    && (forall h :: h in s.table ==> (s.table[h].consumed <==> Uses(s, h) == 1))
    && (forall id :: id in s.txs && s.txs[id].Passed? ==>
          s.txs[id].snapshot <= s.version
          && (s.txs[id].snapshot == s.version ==> IsFresh(s, s.txs[id].h)))
    && (forall id :: id in s.txs && s.txs[id].Writing? ==> s.lock == Some(id) && IsFresh(s, s.txs[id].h))
    && (s.lock.Some? ==> s.lock.value in s.txs && s.txs[s.lock.value].Writing?)
  }

  predicate IsFresh(s: System, h: hash) {
    h in s.table && !s.table[h].consumed
  }

  lemma StepKeepsInv(s: System, e: Step)
    requires Inv(s) && IsEnabled(s, e)
    ensures Inv(Next(true, s, e))
  {
    match e {
      case Begin(_, _, _, _) => BeginKeepsInv(s, e);
      case Update(_) => UpdateKeepsInv(s, e);
      case Rollback(_) => RollbackKeepsInv(s, e);
      case Commit(_) => CommitKeepsInv(s, e);
      case _ => OutsideStepKeepsInv(s, e);
    }
  }

  lemma BeginKeepsInv(s: System, e: Step)
    requires Inv(s) && IsEnabled(s, e) && e.Begin?
    ensures Inv(Next(true, s, e))
  {
    var t := Next(true, s, e);
    TableSame(s, t);
    hide Uses;
  }

  lemma UpdateKeepsInv(s: System, e: Step)
    requires Inv(s) && IsEnabled(s, e) && e.Update?
    ensures Inv(Next(true, s, e))
  {
    var t := Next(true, s, e);
    TableSame(s, t);
    hide Uses;
  }

  lemma RollbackKeepsInv(s: System, e: Step)
    requires Inv(s) && IsEnabled(s, e) && e.Rollback?
    ensures Inv(Next(true, s, e))
  {
    var t := Next(true, s, e);
    TableSame(s, t);
    hide Uses;
  }

  lemma TableSame(s: System, t: System)
    requires t.table == s.table && t.uses == s.uses
    ensures forall g :: Uses(t, g) == Uses(s, g)
    ensures forall g :: IsFresh(t, g) == IsFresh(s, g)
  {
  }

  lemma CommitKeepsInv(s: System, e: Step)
    requires Inv(s) && IsEnabled(s, e) && e.Commit?
    ensures Inv(Next(true, s, e))
  {
    var t := Next(true, s, e);
    if s.txs[e.id].Writing? {
      var h := s.txs[e.id].h;
      assert forall g :: Uses(t, g) == if g == h then Uses(s, h) + 1 else Uses(s, g);
      assert IsFresh(s, h);
    } else {
      assert forall g :: Uses(t, g) == Uses(s, g);
      assert forall g :: IsFresh(t, g) == IsFresh(s, g);
    }
  }

  lemma OutsideStepKeepsInv(s: System, e: Step)
    requires Inv(s) && IsEnabled(s, e) && (e.Insert? || e.Revoke? || e.Remove?)
    ensures Inv(Next(true, s, e))
  {
    var t := Next(true, s, e);
    assert t.version == s.version + 1 && t.txs == s.txs;
    assert forall g :: Uses(t, g) == if e.Insert? && g == e.h then 0 else Uses(s, g);
  }

  lemma {:induction false} RunKeepsInv(s: System, es: seq<Step>)
    requires Inv(s) && IsRun(true, s, es)
    ensures Inv(After(true, s, es))
    decreases |es|
  {
    if es != [] {
      hide Inv;
      StepKeepsInv(s, es[0]);
      RunKeepsInv(Next(true, s, es[0]), es[1..]);
    }
  }

  // Over every interleaving, at most one consuming exchange of a token succeeds between
  // two inserts of it, and the token is then marked.
  lemma SingleUse(es: seq<Step>, h: hash)
    requires IsRun(true, EMPTY, es)
    ensures var t := After(true, EMPTY, es);
      Uses(t, h) <= 1 && (h in t.table ==> (t.table[h].consumed <==> Uses(t, h) == 1))
  {
    RunKeepsInv(EMPTY, es);
  }

  // ---- Revoked, removed, expired ----

  predicate InsertsNone(es: seq<Step>, h: hash) {
    forall k :: 0 <= k < |es| && es[k].Insert? ==> es[k].h != h
  }

  // What becomes of a row until the token is inserted again: it goes when it is removed,
  // is revoked when it was or is told to be, and keeps its expiry.
  lemma {:induction false} RowAfter(isolated: bool, s: System, es: seq<Step>, h: hash)
    requires IsRun(isolated, s, es) && InsertsNone(es, h)
    ensures var t := After(isolated, s, es).table;
      && (h in t <==> h in s.table && Remove(h) !in es)
      && (h in t ==> t[h].expiresAt == s.table[h].expiresAt && (t[h].revoked <==> s.table[h].revoked || Revoke(h) in es))
    decreases |es|
  {
    if es != [] {
      assert es == [es[0]] + es[1..];
      RowStep(isolated, s, es[0], h);
      hide Next, IsEnabled;
      RowAfter(isolated, Next(isolated, s, es[0]), es[1..], h);
    }
  }

  lemma RowStep(isolated: bool, s: System, e: Step, h: hash)
    requires IsEnabled(s, e) && (e.Insert? ==> e.h != h)
    ensures var t := Next(isolated, s, e).table;
      && (h in t <==> h in s.table && e != Remove(h))
      && (h in t ==> t[h].expiresAt == s.table[h].expiresAt && (t[h].revoked <==> s.table[h].revoked || e == Revoke(h)))
  {
  }

  // Exactly when a check passes, over every interleaving since the token was inserted: not
  // revoked, not removed, not expired and not yet used.
  lemma PassesIff(s: System, h: hash, expiresAt: int, es: seq<Step>, id: nat, now: int, consume: bool)
    requires Inv(s) && IsEnabled(s, Insert(h, expiresAt))
    requires IsRun(true, Next(true, s, Insert(h, expiresAt)), es) && InsertsNone(es, h)
    requires IsEnabled(After(true, Next(true, s, Insert(h, expiresAt)), es), Begin(id, h, now, consume))
    ensures var t := After(true, Next(true, s, Insert(h, expiresAt)), es);
      var tx := Next(true, t, Begin(id, h, now, consume)).txs[id];
      && (tx.Passed? <==> Revoke(h) !in es && Remove(h) !in es && now <= expiresAt && Uses(t, h) == 0)
      && (!tx.Passed? ==> tx.Failed?)
  {
    hide Inv;
    var s1 := Next(true, s, Insert(h, expiresAt));
    StepKeepsInv(s, Insert(h, expiresAt));
    RunKeepsInv(s1, es);
    RowAfter(true, s1, es, h);
    ConsumedIsUsed(After(true, s1, es), h);
  }

  lemma ConsumedIsUsed(s: System, h: hash)
    requires Inv(s)
    ensures h in s.table ==> (s.table[h].consumed <==> Uses(s, h) != 0)
  {
  }

  // After a revocation, and until the next insert, no check passes, whatever else happens
  // and with or without the isolation.
  lemma RevokedIsRefused(isolated: bool, s: System, h: hash, es: seq<Step>, id: nat, now: int, consume: bool)
    requires IsEnabled(s, Revoke(h))
    requires IsRun(isolated, Next(isolated, s, Revoke(h)), es) && InsertsNone(es, h)
    requires IsEnabled(After(isolated, Next(isolated, s, Revoke(h)), es), Begin(id, h, now, consume))
    ensures var t := After(isolated, Next(isolated, s, Revoke(h)), es);
      Next(isolated, t, Begin(id, h, now, consume)).txs[id] == Failed(h, if h in t.table then Revoked else NotFound)
  {
    RowAfter(isolated, Next(isolated, s, Revoke(h)), es, h);
  }

  // Nor does one later than the expiry.
  lemma ExpiredIsRefused(isolated: bool, s: System, h: hash, es: seq<Step>, id: nat, now: int, consume: bool)
    requires h in s.table && s.table[h].expiresAt < now
    requires IsRun(isolated, s, es) && InsertsNone(es, h)
    requires IsEnabled(After(isolated, s, es), Begin(id, h, now, consume))
    ensures Next(isolated, After(isolated, s, es), Begin(id, h, now, consume)).txs[id].Failed?
  {
    RowAfter(isolated, s, es, h);
  }

  // A transaction that has ended stays as it is: what is refused never succeeds later.
  lemma {:induction false} EndedStays(isolated: bool, s: System, es: seq<Step>, id: nat)
    requires IsRun(isolated, s, es) && id in s.txs && (s.txs[id].Failed? || s.txs[id].Succeeded?)
    ensures id in After(isolated, s, es).txs && After(isolated, s, es).txs[id] == s.txs[id]
    decreases |es|
  {
    if es != [] {
      EndedStep(isolated, s, es[0], id);
      hide Next, IsEnabled;
      EndedStays(isolated, Next(isolated, s, es[0]), es[1..], id);
    }
  }

  lemma EndedStep(isolated: bool, s: System, e: Step, id: nat)
    requires IsEnabled(s, e) && id in s.txs && (s.txs[id].Failed? || s.txs[id].Succeeded?)
    ensures id in Next(isolated, s, e).txs && Next(isolated, s, e).txs[id] == s.txs[id]
  {
  }

  // The isolation is what this rests on: without it two exchanges that have both read
  // the unconsumed row both succeed, since nobody looks at the count of changed rows.
  lemma DoubleUseWithoutIsolation(h: hash) returns (es: seq<Step>)
    ensures IsRun(false, EMPTY, es) && Uses(After(false, EMPTY, es), h) == 2
  {
    var s1 := Next(false, EMPTY, Insert(h, 10));
    var s2 := Next(false, s1, Begin(1, h, 0, true));
    var s3 := Next(false, s2, Begin(2, h, 0, true));
    var s4 := Next(false, s3, Update(1));
    var s5 := Next(false, s4, Commit(1));
    var s6 := Next(false, s5, Update(2));
    var s7 := Next(false, s6, Commit(2));
    assert Uses(s7, h) == 2;
    es := [];
    es := Prepend(s6, Commit(2), es);
    es := Prepend(s5, Update(2), es);
    es := Prepend(s4, Commit(1), es);
    es := Prepend(s3, Update(1), es);
    es := Prepend(s2, Begin(2, h, 0, true), es);
    es := Prepend(s1, Begin(1, h, 0, true), es);
    es := Prepend(EMPTY, Insert(h, 10), es);
  }

  lemma Prepend(s: System, e: Step, es: seq<Step>) returns (longer: seq<Step>)
    requires IsEnabled(s, e) && IsRun(false, Next(false, s, e), es)
    ensures IsRun(false, s, longer) && After(false, s, longer) == After(false, Next(false, s, e), es)
  {
    longer := [e] + es;
    assert longer[1..] == es;
  }
}
