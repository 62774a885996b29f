/**
 A multipart fetch against a cache that is replaced while it runs.  A run is any
 interleaving of the server publishing a new generation of batches and the client
 finishing a round of its fetch.  No DNS cache stands between the two.
 */
module Rotation {
  import opened Wrappers
  import opened Text
  import opened Decimal
  import opened WireName
  import opened Header
  import opened Response
  import opened Exchange
  import Client

  // A round is lost, or one of its queries reached the server and its answer is the
  // first to come back.
  datatype Event =
    | Publish(batches: batchmap)
    | Lost
    | Answered(query: seq<byte>, draw: int)

  // history holds every generation so far, the current one last; picks records which
  // generation answered each part of the current attempt.
  datatype System = System(history: seq<batchmap>, client: Client.State, picks: seq<nat>)

  predicate IsPossible(setup: Setup, batch: nat, s: System, e: Event) {
    match e
    case Publish(batches) => true
    case Lost => true
    case Answered(query, draw) =>
      s.client.Asking? ==> Carries(setup, query, batch, s.client.Part())
  }

  ghost predicate PublishesText(e: Event) {
    e.Publish? ==> IsPublishable(e.batches)
  }

  function Reply(setup: Setup, s: System, e: Event): Option<string>
    requires s.history != []
  {
    match e
    case Answered(query, draw) => Received(setup, s.history[|s.history| - 1], query, draw)
    case _ => None
  }

  function Next(setup: Setup, s: System, e: Event): (t: System)
    requires s.history != [] && s.client.Valid()
    ensures t.history != [] && t.client.Valid()
  {
    if e.Publish? then s.(history := s.history + [e.batches])
    else if !s.client.Asking? then s
    else
      var reply := Reply(setup, s, e);
      var client := Client.Step(s.client, reply);
      var current := |s.history| - 1;
      var picks :=
        if reply.None? then s.picks
        else if s.client.progress.First? then [current]
        else if client.Asking? && client.progress.First? then []
        else s.picks + [current];
      System(s.history, client, picks)
  }

  function Init(generation: batchmap): System {
    System([generation], Client.START, [])
  }

  // The state after a run.
  function After(setup: Setup, s: System, es: seq<Event>): (t: System)
    requires s.history != [] && s.client.Valid()
    ensures t.history != [] && t.client.Valid()
    decreases |es|
  {
    if es == [] then s else After(setup, Next(setup, s, es[0]), es[1..])
  }

  ghost predicate IsRun(setup: Setup, batch: nat, s: System, es: seq<Event>)
    requires s.history != [] && s.client.Valid()
    decreases |es|
  {
    es == [] || (IsPossible(setup, batch, s, es[0]) && PublishesText(es[0])
                 && IsRun(setup, batch, Next(setup, s, es[0]), es[1..]))
  }

  // ---- What may be assembled ----

  // Part j of a batch of n parts in a generation.
  predicate HasPart(g: batchmap, batch: nat, n: nat, j: nat) {
    j < n && |Lookup(g, batch)| == n
  }

  function PartOf(g: batchmap, batch: nat, j: nat): string {
    if j < |Lookup(g, batch)| then Lookup(g, batch)[j] else ""
  }

  // The text that takes part j from generation picks[j].
  function Mixture(history: seq<batchmap>, batch: nat, picks: seq<nat>): string
    requires forall j :: 0 <= j < |picks| ==> picks[j] < |history|
  {
    Concat(seq(|picks|, j requires 0 <= j < |picks| => PartOf(history[picks[j]], batch, j)))
  }

  // Every part comes from a published generation that has as many parts as there are
  // picks, and no part from an older generation than the part before it.
  ghost predicate IsMixture(history: seq<batchmap>, batch: nat, picks: seq<nat>, n: nat) {
    && |picks| <= n
    && (forall j :: 0 <= j < |picks| ==> picks[j] < |history| && HasPart(history[picks[j]], batch, n, j))
    && (forall i, j :: 0 <= i <= j < |picks| ==> picks[i] <= picks[j])
  }

  ghost predicate IsAssembly(history: seq<batchmap>, batch: nat, picks: seq<nat>, text: string) {
    && picks != []
    && IsMixture(history, batch, picks, |picks|)
    && text == Mixture(history, batch, picks)
  }

  // ---- Safety over every run ----

  ghost predicate Inv(batch: nat, s: System) {
    && s.history != [] && s.client.Valid()
    && (forall g :: 0 <= g < |s.history| ==> IsPublishable(s.history[g]))
    && match s.client
       case Asking(_, _, First, _) => true
       case Asking(_, _, Rest(total, next, parts), _) =>
         && |s.picks| == next - 1 && |parts| == total
         && IsMixture(s.history, batch, s.picks, total)
         && (forall j :: 0 <= j < |s.picks| ==> parts[j] == PartOf(s.history[s.picks[j]], batch, j))
       case Done(text, n, _) =>
         && IsAssembly(s.history, batch, s.picks, text) && n == |s.picks| <= Client.MAX_ARRAY_LENGTH
       case Failed(_) => true
  }

  lemma PublishKeepsInv(batch: nat, s: System, batches: batchmap)
    requires Inv(batch, s) && IsPublishable(batches)
    ensures Inv(batch, s.(history := s.history + [batches]))
  {
    var t := s.(history := s.history + [batches]);
    assert forall g :: 0 <= g < |s.history| ==> t.history[g] == s.history[g];
    if s.client.Done? {
      MixtureSame(s.history, t.history, batch, s.picks);
    }
  }

  lemma MixtureSame(h: seq<batchmap>, k: seq<batchmap>, batch: nat, picks: seq<nat>)
    requires |h| <= |k| && forall g :: 0 <= g < |h| ==> h[g] == k[g]
    requires forall j :: 0 <= j < |picks| ==> picks[j] < |h|
    ensures Mixture(h, batch, picks) == Mixture(k, batch, picks)
  {
    assert seq(|picks|, j requires 0 <= j < |picks| => PartOf(h[picks[j]], batch, j))
        == seq(|picks|, j requires 0 <= j < |picks| => PartOf(k[picks[j]], batch, j));
  }

  // What an answer can be: no header at all, or the part that was asked for from the
  // current generation.
  lemma ReplyIsCurrentPart(setup: Setup, batch: nat, s: System, e: Event)
    requires setup.Valid() && batch <= MAX_INT
    requires Inv(batch, s) && s.client.Asking? && IsPossible(setup, batch, s, e)
    ensures var reply := Reply(setup, s, e);
      reply.Some? && ParseChunkHeader(reply.value).Some? ==>
        var h := ParseChunkHeader(reply.value).value;
        var g := s.history[|s.history| - 1];
        h.part == s.client.Part() && HasPart(g, batch, h.total, h.part - 1) && h.payload == PartOf(g, batch, h.part - 1)
  {
    if e.Answered? {
      hide Received, ParseChunkHeader, BareLength, Carries;
      ExchangeExact(setup, s.history[|s.history| - 1], e.query, batch, s.client.Part(), e.draw);
    }
  }

  lemma LossKeepsInv(setup: Setup, batch: nat, s: System, e: Event)
    requires Inv(batch, s) && !e.Publish? && s.client.Asking? && Reply(setup, s, e).None?
    ensures Inv(batch, Next(setup, s, e))
  {
    hide Reply, IsPublishable, IsMixture, PartOf, IsAssembly;
  }

  lemma BadTextKeepsInv(setup: Setup, batch: nat, s: System, e: Event)
    requires Inv(batch, s) && !e.Publish? && s.client.Asking? && Reply(setup, s, e).Some?
    requires var h := ParseChunkHeader(Reply(setup, s, e).value);
      h.None? || (s.client.progress.Rest? && h.value.total != s.client.progress.total)
    ensures Inv(batch, Next(setup, s, e))
  {
    hide Reply, ParseChunkHeader, IsPublishable, IsMixture, PartOf, IsAssembly;
  }

  lemma AskKeepsInv(setup: Setup, batch: nat, s: System, e: Event)
    requires setup.Valid() && batch <= MAX_INT
    requires Inv(batch, s) && !e.Publish? && IsPossible(setup, batch, s, e)
    ensures Inv(batch, Next(setup, s, e))
  {
    hide Reply, ParseChunkHeader, IsPossible, Inv, HasPart, PartOf, Client.Step;
    InvIsValid(batch, s);
    if s.client.Asking? {
      ReplyIsCurrentPart(setup, batch, s, e);
      hide Next;
      var reply := Reply(setup, s, e);
      if reply.None? {
        LossKeepsInv(setup, batch, s, e);
      } else {
        var header := ParseChunkHeader(reply.value);
        if header.None? || (s.client.progress.Rest? && header.value.total != s.client.progress.total) {
          BadTextKeepsInv(setup, batch, s, e);
        } else if s.client.progress.First? {
          FirstPartKeepsInv(setup, batch, s, e, header.value);
        } else {
          NextPartKeepsInv(setup, batch, s, e, header.value);
        }
      }
    }
  }

  lemma FirstPartKeepsInv(setup: Setup, batch: nat, s: System, e: Event, h: ChunkHeader)
    requires Inv(batch, s) && !e.Publish? && s.client.Asking? && s.client.progress.First?
    requires Reply(setup, s, e).Some? && ParseChunkHeader(Reply(setup, s, e).value) == Some(h)
    requires h.part == 1 && HasPart(s.history[|s.history| - 1], batch, h.total, 0)
    requires h.payload == PartOf(s.history[|s.history| - 1], batch, 0)
    ensures Inv(batch, Next(setup, s, e))
  {
    hide Reply, ParseChunkHeader, IsPublishable, PartOf;
    var t := Next(setup, s, e);
    if h.total <= Client.MAX_ARRAY_LENGTH {
      var parts := Client.SetElement(Client.EmptyStrings(h.total), 0, h.payload);
      assert |parts| == h.total && parts[0] == h.payload;
      if h.total == 1 {
        PartsAreMixture(s.history, batch, t.picks, parts);
      }
    }
  }

  lemma NextPartKeepsInv(setup: Setup, batch: nat, s: System, e: Event, h: ChunkHeader)
    requires Inv(batch, s) && !e.Publish? && s.client.Asking? && s.client.progress.Rest?
    requires Reply(setup, s, e).Some? && ParseChunkHeader(Reply(setup, s, e).value) == Some(h)
    requires h.part == s.client.progress.next && h.total == s.client.progress.total
    requires HasPart(s.history[|s.history| - 1], batch, h.total, h.part - 1)
    requires h.payload == PartOf(s.history[|s.history| - 1], batch, h.part - 1)
    ensures Inv(batch, Next(setup, s, e))
  {
    hide Reply, ParseChunkHeader, IsPublishable, PartOf;
    var t := Next(setup, s, e);
    var Rest(total, next, before) := s.client.progress;
    var parts := before[next - 1 := h.payload];
    assert Client.SetElement(before, next - 1, h.payload) == parts;
    assert t.picks == s.picks + [|s.history| - 1];
    if next == total {
      PartsAreMixture(s.history, batch, t.picks, parts);
    }
  }

  lemma PartsAreMixture(history: seq<batchmap>, batch: nat, picks: seq<nat>, parts: seq<string>)
    requires |parts| == |picks|
    requires forall j :: 0 <= j < |picks| ==> picks[j] < |history| && parts[j] == PartOf(history[picks[j]], batch, j)
    ensures Concat(parts) == Mixture(history, batch, picks)
  {
    assert parts == seq(|picks|, j requires 0 <= j < |picks| => PartOf(history[picks[j]], batch, j));
  }

  lemma {:induction false} RunKeepsInv(setup: Setup, batch: nat, s: System, es: seq<Event>)
    requires setup.Valid() && batch <= MAX_INT
    requires Inv(batch, s) && IsRun(setup, batch, s, es)
    ensures Inv(batch, After(setup, s, es))
    decreases |es|
  {
    if es != [] {
      hide Inv, Next;
      StepKeepsInv(setup, batch, s, es[0]);
      RunKeepsInv(setup, batch, Next(setup, s, es[0]), es[1..]);
    }
  }

  lemma StepKeepsInv(setup: Setup, batch: nat, s: System, e: Event)
    requires setup.Valid() && batch <= MAX_INT
    requires Inv(batch, s) && IsPossible(setup, batch, s, e) && PublishesText(e)
    ensures Inv(batch, Next(setup, s, e))
  {
    hide Inv;
    if e.Publish? {
      PublishKeepsInv(batch, s, e.batches);
    } else {
      AskKeepsInv(setup, batch, s, e);
    }
  }

  // Whatever the interleaving, the losses, the padding and the letter case: a fetch that
  // ends with a text ends with a mixture of published generations in order of age, all
  // of them cut into the same number of parts.
  lemma RotationSafety(setup: Setup, batch: nat, generation: batchmap, es: seq<Event>)
    requires setup.Valid() && batch <= MAX_INT && IsPublishable(generation)
    requires IsRun(setup, batch, Init(generation), es)
    ensures var t := After(setup, Init(generation), es);
      t.client.Done? ==>
        IsAssembly(t.history, batch, t.picks, t.client.ciphertext) && t.client.partCount == |t.picks|
  {
    RunKeepsInv(setup, batch, Init(generation), es);
  }

  // A generation with another number of parts always ends the attempt, and the third
  // attempt is the last.
  lemma OtherPartCountEndsAttempt(setup: Setup, batch: nat, s: System, e: Event)
    requires setup.Valid() && batch <= MAX_INT
    requires Inv(batch, s) && s.client.Asking? && s.client.progress.Rest? && IsPossible(setup, batch, s, e)
    requires Reply(setup, s, e).Some?
    requires |Lookup(s.history[|s.history| - 1], batch)| != s.client.progress.total
    ensures var t := Next(setup, s, e).client;
      if s.client.attempt < 2 then t.Asking? && t.attempt == s.client.attempt + 1 && t.progress.First?
      else t == Client.Failed(Client.InvalidChunk)
  {
    hide Reply, ParseChunkHeader, Carries, Inv;
    InvIsValid(batch, s);
    NoReplyToPublish(setup, s, e);
    ReplyIsCurrentPart(setup, batch, s, e);
  }

  lemma NoReplyToPublish(setup: Setup, s: System, e: Event)
    requires s.history != []
    ensures !e.Answered? ==> Reply(setup, s, e) == None
  {
  }

  lemma InvIsValid(batch: nat, s: System)
    requires Inv(batch, s)
    ensures s.history != [] && s.client.Valid()
  {
  }

  // ---- A fetch that no rotation disturbs ----

  ghost predicate IsQuiet(es: seq<Event>) {
    forall k :: 0 <= k < |es| ==> !es[k].Publish?
  }

  // Every part so far comes from the newest generation.
  ghost predicate IsFresh(s: System) {
    s.history != [] && s.client.Valid() &&
    ((s.client.Asking? && s.client.progress.Rest?) || s.client.Done? ==>
       forall j :: 0 <= j < |s.picks| ==> s.picks[j] == |s.history| - 1)
  }

  lemma QuietStepStaysFresh(setup: Setup, s: System, e: Event)
    requires !e.Publish? && s.history != [] && s.client.Valid() && IsFresh(s)
    ensures Next(setup, s, e).history == s.history && IsFresh(Next(setup, s, e))
  {
    hide Reply, ParseChunkHeader, Client.SetElement, Concat;
  }

  lemma {:induction false} QuietStaysFresh(setup: Setup, s: System, es: seq<Event>)
    requires IsQuiet(es) && s.history != [] && s.client.Valid() && IsFresh(s)
    ensures After(setup, s, es).history == s.history && IsFresh(After(setup, s, es))
    decreases |es|
  {
    if es != [] {
      hide Next, IsFresh;
      assert forall k :: 0 <= k < |es[1..]| ==> es[1..][k] == es[k + 1];
      QuietStepStaysFresh(setup, s, es[0]);
      QuietStaysFresh(setup, Next(setup, s, es[0]), es[1..]);
    }
  }

  lemma MixtureOfOne(history: seq<batchmap>, batch: nat, picks: seq<nat>, g: nat)
    requires g < |history| && |picks| == |Lookup(history[g], batch)|
    requires forall j :: 0 <= j < |picks| ==> picks[j] == g
    ensures Mixture(history, batch, picks) == Concat(Lookup(history[g], batch))
  {
    PartsAreMixture(history, batch, picks, Lookup(history[g], batch));
  }

  // Without a publication between the first and the last query of an attempt, the
  // text is exactly the batch of the generation that was current.
  lemma QuietFetchIsWhole(setup: Setup, batch: nat, generation: batchmap, before: seq<Event>, during: seq<Event>)
    requires setup.Valid() && batch <= MAX_INT && IsPublishable(generation)
    requires IsRun(setup, batch, Init(generation), before + during)
    requires var s := After(setup, Init(generation), before); s.client.Asking? && s.client.progress.First?
    requires IsQuiet(during)
    ensures var current := After(setup, Init(generation), before).history;
      var t := After(setup, Init(generation), before + during);
      t.history == current
      && (t.client.Done? ==> t.client.ciphertext == Concat(Lookup(current[|current| - 1], batch)))
  {
    hide Next, IsRun, Inv;
    var s := After(setup, Init(generation), before);
    var t := After(setup, Init(generation), before + during);
    AfterConcat(setup, Init(generation), before, during);
    QuietStaysFresh(setup, s, during);
    RotationSafety(setup, batch, generation, before + during);
    if t.client.Done? {
      MixtureOfOne(t.history, batch, t.picks, |t.history| - 1);
    }
  }

  lemma {:induction false} AfterConcat(setup: Setup, s: System, a: seq<Event>, b: seq<Event>)
    requires s.history != [] && s.client.Valid()
    ensures After(setup, s, a + b) == After(setup, After(setup, s, a), b)
    decreases |a|
  {
    if a == [] {
      assert a + b == b;
    } else {
      hide Next;
      assert (a + b)[1..] == a[1..] + b;
      AfterConcat(setup, Next(setup, s, a[0]), a[1..], b);
    }
  }

  lemma {:induction false} RunConcat(setup: Setup, batch: nat, s: System, a: seq<Event>, b: seq<Event>)
    requires s.history != [] && s.client.Valid()
    ensures IsRun(setup, batch, s, a + b)
       <==> IsRun(setup, batch, s, a) && IsRun(setup, batch, After(setup, s, a), b)
    decreases |a|
  {
    if a == [] {
      assert a + b == b;
    } else {
      hide Next;
      assert (a + b)[1..] == a[1..] + b;
      RunConcat(setup, batch, Next(setup, s, a[0]), a[1..], b);
    }
  }
}
