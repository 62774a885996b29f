/**
 How a fetch runs out of attempts: each attempt that is abandoned saw the cache replaced.
 */
module Attempts {
  import opened Wrappers
  import opened Decimal
  import opened Header
  import opened Response
  import opened Exchange
  import opened Rotation
  import Client

  // Whenever a part of the batch is answered, the answer is whole.
  ghost predicate IsWhole(g: batchmap, batch: nat) {
    forall j :: 0 <= j < |Lookup(g, batch)| ==>
      Lookup(g, batch)[j] != "" && BareLength(batch, j + 1, |Lookup(g, batch)|, Lookup(g, batch)[j]) <= 255
  }

  ghost predicate PublishesWhole(es: seq<Event>, batch: nat) {
    forall k :: 0 <= k < |es| && es[k].Publish? ==> IsWhole(es[k].batches, batch)
  }

  // Attempt number n first saw a generation no older than the n-th published since the start.
  ghost predicate IsLate(batch: nat, s: System) {
    && s.history != []
    && (forall g :: 0 <= g < |s.history| ==> IsWhole(s.history[g], batch))
    && match s.client
       case Asking(attempt, _, First, _) => attempt < |s.history|
       case Asking(attempt, _, Rest(_, _, _), _) => s.picks != [] && attempt <= s.picks[0] < |s.history|
       case Done(_, _, _) => true
       case Failed(error) => error == Client.InvalidChunk ==> |s.history| > 3
  }

  // An answer has a header, and its total is that of the current generation.
  lemma AnswerIsWhole(setup: Setup, batch: nat, s: System, e: Event)
    requires setup.Valid() && batch <= MAX_INT && Inv(batch, s) && s.client.Asking? && IsPossible(setup, batch, s, e)
    requires IsWhole(s.history[|s.history| - 1], batch) && Reply(setup, s, e).Some?
    ensures var h := ParseChunkHeader(Reply(setup, s, e).value);
      h.Some? && h.value.part == s.client.Part() && h.value.total == |Lookup(s.history[|s.history| - 1], batch)|
  {
    hide Received, ParseChunkHeader, BareLength, Carries;
    ExchangeExact(setup, s.history[|s.history| - 1], e.query, batch, s.client.Part(), e.draw);
  }

  // The first pick of an attempt is of a generation with the attempt's number of parts.
  lemma FirstPick(batch: nat, s: System)
    requires Inv(batch, s) && s.client.Asking? && s.client.progress.Rest? && s.picks != []
    ensures s.picks[0] < |s.history| && |Lookup(s.history[s.picks[0]], batch)| == s.client.progress.total
  {
    hide IsPublishable, PartOf;
  }

  lemma StepKeepsLate(setup: Setup, batch: nat, s: System, e: Event)
    requires setup.Valid() && batch <= MAX_INT && Inv(batch, s) && IsLate(batch, s) && IsPossible(setup, batch, s, e)
    requires e.Publish? ==> IsWhole(e.batches, batch)
    ensures IsLate(batch, Next(setup, s, e))
  {
    hide Reply, ParseChunkHeader, IsPossible, IsWhole, Inv, Client.SetElement;
    InvIsValid(batch, s);
    if !e.Publish? && s.client.Asking? && Reply(setup, s, e).Some? {
      AnswerIsWhole(setup, batch, s, e);
      if s.client.progress.Rest? {
        FirstPick(batch, s);
      }
    }
  }

  lemma {:induction false} RunKeepsLate(setup: Setup, batch: nat, s: System, es: seq<Event>)
    requires setup.Valid() && batch <= MAX_INT && Inv(batch, s) && IsLate(batch, s)
    requires IsRun(setup, batch, s, es) && PublishesWhole(es, batch)
    ensures IsLate(batch, After(setup, s, es))
    decreases |es|
  {
    if es != [] {
      hide Inv, IsLate, Next, IsWhole;
      StepKeepsInv(setup, batch, s, es[0]);
      StepKeepsLate(setup, batch, s, es[0]);
      assert forall k :: 0 <= k < |es[1..]| ==> es[1..][k] == es[k + 1];
      RunKeepsLate(setup, batch, Next(setup, s, es[0]), es[1..]);
    }
  }

  function Publications(es: seq<Event>): nat {
    if es == [] then 0 else (if es[0].Publish? then 1 else 0) + Publications(es[1..])
  }

  lemma {:induction false} HistoryGrows(setup: Setup, s: System, es: seq<Event>)
    requires s.history != [] && s.client.Valid()
    ensures |After(setup, s, es).history| == |s.history| + Publications(es)
    decreases |es|
  {
    if es != [] {
      hide Reply, Client.Step;
      HistoryGrows(setup, Next(setup, s, es[0]), es[1..]);
    }
  }

  // Over every run: a fetch that runs out of attempts had the cache replaced at least
  // three times while it went on, provided that no answer is cut.
  lemma OutOfAttempts(setup: Setup, batch: nat, generation: batchmap, es: seq<Event>)
    requires setup.Valid() && batch <= MAX_INT && IsPublishable(generation) && IsWhole(generation, batch)
    requires IsRun(setup, batch, Init(generation), es) && PublishesWhole(es, batch)
    ensures After(setup, Init(generation), es).client == Client.Failed(Client.InvalidChunk) ==> Publications(es) >= 3
  {
    hide IsRun, After, IsWhole, PublishesWhole;
    RunKeepsLate(setup, batch, Init(generation), es);
    HistoryGrows(setup, Init(generation), es);
  }
}
