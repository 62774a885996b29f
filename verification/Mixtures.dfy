/**
 The converse of rotation safety: every mixture of generations in order of age, with
 equal part counts, is what some run ends with.  With RotationSafety this says exactly
 what a client can assemble.
 */
module Mixtures {
  import opened Wrappers
  import opened Text
  import opened Decimal
  import opened WireName
  import opened Header
  import opened Response
  import opened Exchange
  import opened Rotation
  import Address
  import Client

  function OwnQueryFor(setup: Setup, batch: nat, part: nat): seq<byte> {
    Query(0, LabelsOf(Address.PartName(batch, part, setup.Domain())))
  }

  // A part that gets through: its chunk is not empty, its text is not cut, and the
  // answer to the client's own query is within the limit.
  predicate IsDeliverable(setup: Setup, batch: nat, n: nat, j: nat, chunk: string) {
    && chunk != ""
    && BareLength(batch, j + 1, n, chunk) <= 255
    && BareLength(batch, j + 1, n, chunk) + |OwnQueryFor(setup, batch, j + 1)| + 13 <= setup.maxBytes
  }

  // The picked parts, of n parts each, get through.
  ghost predicate GetThrough(setup: Setup, gens: seq<batchmap>, batch: nat, picks: seq<nat>, n: nat) {
    forall j :: 0 <= j < |picks| ==>
      picks[j] < |gens| && IsDeliverable(setup, batch, n, j, PartOf(gens[picks[j]], batch, j))
  }

  ghost predicate ArePublishable(gens: seq<batchmap>) {
    forall g :: 0 <= g < |gens| ==> IsPublishable(gens[g])
  }

  // The events that publish gens[from..to].
  function Publications(gens: seq<batchmap>, from: nat, to: nat): seq<Event>
    requires from <= to <= |gens|
  {
    seq(to - from, k requires 0 <= k < to - from => Publish(gens[from + k]))
  }

  lemma {:induction false} PublishAll(setup: Setup, batch: nat, s: System, gens: seq<batchmap>, from: nat, to: nat)
    requires 0 < from <= to <= |gens| && ArePublishable(gens)
    requires s.history == gens[..from] && s.client.Valid()
    ensures IsRun(setup, batch, s, Publications(gens, from, to))
    ensures After(setup, s, Publications(gens, from, to)) == s.(history := gens[..to])
    decreases |gens| - from
  {
    var es := Publications(gens, from, to);
    if from == to {
      assert s == s.(history := gens[..to]);
    } else {
      assert es[0] == Publish(gens[from]);
      assert es[1..] == Publications(gens, from + 1, to);
      var t := Next(setup, s, es[0]);
      assert t.history == gens[..from + 1];
      PublishAll(setup, batch, t, gens, from + 1, to);
      assert t.(history := gens[..to]) == s.(history := gens[..to]);
    }
  }

  function AskFor(setup: Setup, batch: nat, j: nat): Event {
    Answered(OwnQueryFor(setup, batch, j + 1), 0)
  }

  // The client has the first j of the picked parts and asks for the next.
  ghost predicate IsWaiting(c: Client.State, gens: seq<batchmap>, batch: nat, picks: seq<nat>, j: nat) {
    && c.Valid() && c.Asking? && c.attempt == 0 && c.round == 0
    && 0 <= j < |picks| && (forall i :: 0 <= i < |picks| ==> picks[i] < |gens|)
    && (j == 0 <==> c.progress.First?)
    && (j > 0 ==> c.progress.total == |picks| && c.progress.next == j + 1
                  && HasParts(c.progress.parts, gens, batch, picks, j))
  }

  // The client has the first j of the picked parts: it waits for the next, or is done.
  ghost predicate IsAlong(c: Client.State, gens: seq<batchmap>, batch: nat, picks: seq<nat>, j: nat)
    requires forall i :: 0 <= i < |picks| ==> picks[i] < |gens|
  {
    if j < |picks| then IsWaiting(c, gens, batch, picks, j)
    else c.Done? && c.ciphertext == Mixture(gens, batch, picks)
  }

  ghost predicate HasParts(parts: seq<string>, gens: seq<batchmap>, batch: nat, picks: seq<nat>, j: nat) {
    && |parts| == |picks| && j <= |picks|
    && forall i :: 0 <= i < j ==> picks[i] < |gens| && parts[i] == PartOf(gens[picks[i]], batch, i)
  }

  lemma AskGetsPart(setup: Setup, s: System, g: batchmap, batch: nat, j: nat)
    requires setup.Valid() && batch <= MAX_INT && IsPublishable(g)
    requires s.history != [] && s.history[|s.history| - 1] == g
    requires j < |Lookup(g, batch)|
    requires IsDeliverable(setup, batch, |Lookup(g, batch)|, j, PartOf(g, batch, j))
    requires s.client.Asking? && s.client.Part() == j + 1
    ensures IsPossible(setup, batch, s, AskFor(setup, batch, j))
    ensures var reply := Reply(setup, s, AskFor(setup, batch, j));
      reply.Some? && ParseChunkHeader(reply.value)
                  == Some(ChunkHeader(j + 1, |Lookup(g, batch)|, PartOf(g, batch, j)))
  {
    hide Received, ParseChunkHeader, BareLength, Carries, IsPublishable, Query, LabelsOf, Digits;
    hide Address.PartName, Address.IsDomain, Address.Normalize, Client.Step;
    AtMost19Digits(batch);
    AtMost19Digits(j + 1);
    OwnQuery(setup, batch, j + 1, 0);
    var query := OwnQueryFor(setup, batch, j + 1);
    ExchangeExact(setup, g, query, batch, j + 1, 0);
  }

  // The array of parts, before and after part j is stored.
  function Before(c: Client.State, n: nat, j: nat): seq<string>
    requires j > 0 ==> c.Asking? && c.progress.Rest?
  {
    if j == 0 then Client.EmptyStrings(n) else c.progress.parts
  }

  lemma AskStores(setup: Setup, s: System, gens: seq<batchmap>, batch: nat, picks: seq<nat>, j: nat)
    requires setup.Valid() && batch <= MAX_INT && ArePublishable(gens) && GetThrough(setup, gens, batch, picks, |picks|)
    requires IsMixture(gens, batch, picks, |picks|) && |picks| <= Client.MAX_ARRAY_LENGTH
    requires IsWaiting(s.client, gens, batch, picks, j) && s.history == gens[..picks[j] + 1]
    ensures IsPossible(setup, batch, s, AskFor(setup, batch, j))
    ensures var t := Next(setup, s, AskFor(setup, batch, j));
      && t.history == s.history
      && t.client == Client.Advance(s.client, |picks|, j + 2,
                                    Before(s.client, |picks|, j)[j := PartOf(gens[picks[j]], batch, j)],
                                    s.client.queries + 2)
  {
    hide Reply, ParseChunkHeader, IsPossible, IsPublishable, PartOf, IsDeliverable, Client.Step, Client.Advance;
    hide AskFor;
    var g := gens[picks[j]];
    assert HasPart(g, batch, |picks|, j);
    AskGetsPart(setup, s, g, batch, j);
    StoreStep(s.client, Reply(setup, s, AskFor(setup, batch, j)).value, |picks|, j, PartOf(g, batch, j));
    AskIsAnswered(setup, batch, j);
  }

  lemma AskIsAnswered(setup: Setup, batch: nat, j: nat)
    ensures AskFor(setup, batch, j).Answered?
  {
  }

  lemma WaitingFacts(c: Client.State, gens: seq<batchmap>, batch: nat, picks: seq<nat>, j: nat)
    requires IsWaiting(c, gens, batch, picks, j)
    ensures c.Valid() && c.Asking? && j < |picks|
    ensures forall i :: 0 <= i < |picks| ==> picks[i] < |gens|
    ensures j > 0 ==> c.progress.Rest? && |c.progress.parts| == |picks|
  {
  }

  lemma AdvanceWaits(c: Client.State, gens: seq<batchmap>, batch: nat, picks: seq<nat>, j: nat)
    requires IsWaiting(c, gens, batch, picks, j) && |picks| <= Client.MAX_ARRAY_LENGTH
    ensures IsAlong(Client.Advance(c, |picks|, j + 2,
                                   Before(c, |picks|, j)[j := PartOf(gens[picks[j]], batch, j)], c.queries + 2),
                    gens, batch, picks, j + 1)
  {
    hide PartOf;
    var parts := Before(c, |picks|, j)[j := PartOf(gens[picks[j]], batch, j)];
    assert HasParts(parts, gens, batch, picks, j + 1);
    if j + 1 == |picks| {
      PartsAreMixture(gens, batch, picks, parts);
    }
  }

  // A text that fits is stored in its place.
  lemma StoreStep(c: Client.State, txt: string, n: nat, j: nat, payload: string)
    requires c.Valid() && c.Asking? && c.round == 0 && c.Part() == j + 1 && j < n <= Client.MAX_ARRAY_LENGTH
    requires ParseChunkHeader(txt) == Some(ChunkHeader(j + 1, n, payload))
    requires c.progress.First? <==> j == 0
    requires j > 0 ==> c.progress.total == n == |c.progress.parts|
    ensures Client.Step(c, Some(txt)) == Client.Advance(c, n, j + 2, Before(c, n, j)[j := payload], c.queries + 2)
  {
    hide ParseChunkHeader, Client.Advance;
  }

  lemma OneEvent(setup: Setup, batch: nat, s: System, e: Event)
    requires s.history != [] && s.client.Valid() && IsPossible(setup, batch, s, e) && e.Answered?
    ensures IsRun(setup, batch, s, [e]) && After(setup, s, [e]) == Next(setup, s, e)
  {
    assert [e][1..] == [];
  }

  lemma {:induction false} ReachFrom(setup: Setup, s: System, gens: seq<batchmap>, batch: nat, picks: seq<nat>, j: nat)
    returns (es: seq<Event>)
    requires setup.Valid() && batch <= MAX_INT && ArePublishable(gens) && GetThrough(setup, gens, batch, picks, |picks|)
    requires IsMixture(gens, batch, picks, |picks|) && |picks| <= Client.MAX_ARRAY_LENGTH
    requires IsWaiting(s.client, gens, batch, picks, j)
    requires s.history != [] && |s.history| <= picks[j] + 1 && s.history == gens[..|s.history|]
    ensures IsRun(setup, batch, s, es)
    ensures var t := After(setup, s, es);
      t.history == gens && t.client.Done? && t.client.ciphertext == Mixture(gens, batch, picks)
    decreases |picks| - j
  {
    hide IsRun, After;
    hide ArePublishable, GetThrough, Next, IsMixture, IsWaiting, Mixture, AskFor, Publications, IsPossible;
    WaitingFacts(s.client, gens, batch, picks, j);
    var publish := Publications(gens, |s.history|, picks[j] + 1);
    PublishAll(setup, batch, s, gens, |s.history|, picks[j] + 1);
    var u := After(setup, s, publish);
    AskStores(setup, u, gens, batch, picks, j);
    AdvanceWaits(s.client, gens, batch, picks, j);
    AskIsAnswered(setup, batch, j);
    var e := AskFor(setup, batch, j);
    var t := Next(setup, u, e);
    OneEvent(setup, batch, u, e);
    var rest: seq<Event>;
    if j + 1 < |picks| {
      PicksGrow(gens, batch, picks, j);
      rest := ReachFrom(setup, t, gens, batch, picks, j + 1);
    } else {
      rest := Publications(gens, picks[j] + 1, |gens|);
      PublishAll(setup, batch, t, gens, picks[j] + 1, |gens|);
      assert gens[..|gens|] == gens;
    }
    RunConcat(setup, batch, u, [e], rest);
    AfterConcat(setup, u, [e], rest);
    RunConcat(setup, batch, s, publish, [e] + rest);
    AfterConcat(setup, s, publish, [e] + rest);
    es := publish + ([e] + rest);
  }

  lemma PicksGrow(gens: seq<batchmap>, batch: nat, picks: seq<nat>, j: nat)
    requires IsMixture(gens, batch, picks, |picks|) && j + 1 < |picks|
    ensures picks[j] <= picks[j + 1]
  {
  }

  // Every mixture in order of age whose parts get through is assembled by some run.
  lemma MixtureReachable(setup: Setup, batch: nat, gens: seq<batchmap>, picks: seq<nat>) returns (es: seq<Event>)
    requires setup.Valid() && batch <= MAX_INT && gens != []
    requires ArePublishable(gens) && GetThrough(setup, gens, batch, picks, |picks|)
    requires picks != [] && IsMixture(gens, batch, picks, |picks|) && |picks| <= Client.MAX_ARRAY_LENGTH
    ensures IsRun(setup, batch, Init(gens[0]), es)
    ensures var t := After(setup, Init(gens[0]), es);
      t.history == gens && t.client.Done? && t.client.ciphertext == Mixture(gens, batch, picks)
  {
    hide IsDeliverable, IsPublishable, IsRun, After, Next;
    assert [gens[0]] == gens[..1];
    es := ReachFrom(setup, Init(gens[0]), gens, batch, picks, 0);
  }

  // ---- What is assembled got through ----

  lemma {:induction false} EncodedNameIs(ls: seq<string>)
    requires ls != []
    ensures |EncodeName(ls)| == |Join(ls, DOT)| + 2
  {
    if |ls| > 1 {
      EncodedNameIs(ls[1..]);
    } else {
      assert EncodeLabels(ls[1..]) == [];
    }
  }

  lemma OwnQueryLength(setup: Setup, batch: nat, part: nat)
    requires setup.Valid() && batch <= MAX_INT && part <= MAX_INT
    ensures |OwnQueryFor(setup, batch, part)| == 18 + |Address.PartName(batch, part, setup.Domain())|
  {
    hide Query, LabelsOf, EncodeName, Digits, Join, Address.PartName, Address.Normalize;
    AtMost19Digits(batch);
    AtMost19Digits(part);
    var ls := Address.PartLabels(batch, part) + setup.labels;
    NameLabels(setup, batch, part);
    PartLabelsAreClientLabels(batch, part);
    NameRoundTrip(ls, 0);
    QueryName(0, ls);
    EncodedNameIs(ls);
  }

  // No query for a part is shorter than the client's own.
  lemma CarriedLength(setup: Setup, query: seq<byte>, batch: nat, part: nat)
    requires setup.Valid() && batch <= MAX_INT && part <= MAX_INT && Carries(setup, query, batch, part)
    ensures |OwnQueryFor(setup, batch, part)| <= |query|
  {
    hide OwnQueryFor, EncodeName, Digits, Join, ReadLabels, Address.Normalize, Address.IsDomain;
    OwnQueryLength(setup, batch, part);
    var (ls, end) := ReadQuery(query).value;
    var name := Address.PartName(batch, part, setup.Domain());
    assert |Join(ls, DOT)| == |Lower(Join(ls, DOT))| == |name|;
    NameIsLong(batch, part, setup.Domain(), ls);
    ReadLabelsIff(query, 12, ls, end);
    EncodedNameIs(ls);
  }

  lemma NameIsLong(batch: nat, part: nat, domain: string, ls: seq<string>)
    requires |Join(ls, DOT)| == |Address.PartName(batch, part, domain)|
    ensures ls != []
  {
  }

  // A part that was read is one that gets through.
  lemma ReadIsDeliverable(setup: Setup, batch: nat, s: System, e: Event)
    requires setup.Valid() && batch <= MAX_INT
    requires Inv(batch, s) && s.client.Asking? && IsPossible(setup, batch, s, e)
    requires Reply(setup, s, e).Some? && ParseChunkHeader(Reply(setup, s, e).value).Some?
    ensures var h := ParseChunkHeader(Reply(setup, s, e).value).value;
      var g := s.history[|s.history| - 1];
      h.part == s.client.Part() && HasPart(g, batch, h.total, h.part - 1)
      && IsDeliverable(setup, batch, h.total, h.part - 1, PartOf(g, batch, h.part - 1))
  {
    hide Received, ParseChunkHeader, BareLength, Carries, OwnQueryFor;
    ReplyIsCurrentPart(setup, batch, s, e);
    ExchangeExact(setup, s.history[|s.history| - 1], e.query, batch, s.client.Part(), e.draw);
    CarriedLength(setup, e.query, batch, s.client.Part());
  }

  ghost predicate Delivered(setup: Setup, batch: nat, s: System) {
    match s.client
    case Asking(_, _, Rest(total, _, _), _) => GetThrough(setup, s.history, batch, s.picks, total)
    case Done(_, n, _) => GetThrough(setup, s.history, batch, s.picks, n)
    case _ => true
  }

  lemma PickGetsThrough(setup: Setup, gens: seq<batchmap>, batch: nat, picks: seq<nat>, n: nat, g: nat)
    requires GetThrough(setup, gens, batch, picks, n) && g < |gens|
    requires IsDeliverable(setup, batch, n, |picks|, PartOf(gens[g], batch, |picks|))
    ensures GetThrough(setup, gens, batch, picks + [g], n)
  {
    hide IsDeliverable, PartOf;
  }

  lemma OlderGetThrough(setup: Setup, gens: seq<batchmap>, batch: nat, picks: seq<nat>, n: nat, g: batchmap)
    requires GetThrough(setup, gens, batch, picks, n)
    ensures GetThrough(setup, gens + [g], batch, picks, n)
  {
    hide IsDeliverable, PartOf;
    assert forall j :: 0 <= j < |picks| ==> (gens + [g])[picks[j]] == gens[picks[j]];
  }

  // A round without a new part: the picks stay, or the attempt starts anew or is over.
  lemma NoPartKeepsDelivered(setup: Setup, batch: nat, s: System, e: Event)
    requires s.history != [] && s.client.Valid() && Delivered(setup, batch, s)
    requires !e.Publish? && s.client.Asking?
    requires var reply := Reply(setup, s, e);
      reply.None? || ParseChunkHeader(reply.value).None?
      || (s.client.progress.Rest? && ParseChunkHeader(reply.value).value.total != s.client.progress.total)
    ensures Delivered(setup, batch, Next(setup, s, e))
  {
    hide Reply, ParseChunkHeader, GetThrough, Client.SetElement, Concat;
  }

  // A round with the part that was asked for.
  lemma PartKeepsDelivered(setup: Setup, batch: nat, s: System, e: Event, h: ChunkHeader)
    requires s.history != [] && s.client.Valid() && Delivered(setup, batch, s) && !e.Publish? && s.client.Asking?
    requires Reply(setup, s, e).Some? && ParseChunkHeader(Reply(setup, s, e).value) == Some(h)
    requires h.part == s.client.Part() && (s.client.progress.Rest? ==> h.total == s.client.progress.total)
    requires GetThrough(setup, s.history, batch,
                        (if s.client.progress.First? then [] else s.picks) + [|s.history| - 1], h.total)
    ensures Delivered(setup, batch, Next(setup, s, e))
  {
    hide Reply, ParseChunkHeader, GetThrough, Client.SetElement, Concat;
    assert [] + [|s.history| - 1] == [|s.history| - 1];
  }

  lemma StepKeepsDelivered(setup: Setup, batch: nat, s: System, e: Event)
    requires setup.Valid() && batch <= MAX_INT && Inv(batch, s) && Delivered(setup, batch, s)
    requires IsPossible(setup, batch, s, e)
    ensures Delivered(setup, batch, Next(setup, s, e))
  {
    hide Reply, ParseChunkHeader, IsPossible, IsDeliverable, PartOf, HasPart, GetThrough, Inv, Client.Step;
    InvIsValid(batch, s);
    if e.Publish? {
      if s.client.Done? {
        OlderGetThrough(setup, s.history, batch, s.picks, s.client.partCount, e.batches);
      } else if s.client.Asking? && s.client.progress.Rest? {
        OlderGetThrough(setup, s.history, batch, s.picks, s.client.progress.total, e.batches);
      }
    } else if s.client.Asking? {
      hide Next;
      var reply := Reply(setup, s, e);
      if reply.None? || ParseChunkHeader(reply.value).None?
         || (s.client.progress.Rest? && ParseChunkHeader(reply.value).value.total != s.client.progress.total) {
        NoPartKeepsDelivered(setup, batch, s, e);
      } else {
        ReadIsDeliverable(setup, batch, s, e);
        NewPickGetsThrough(setup, batch, s, ParseChunkHeader(reply.value).value);
        PartKeepsDelivered(setup, batch, s, e, ParseChunkHeader(reply.value).value);
      }
    }
  }

  lemma NewPickGetsThrough(setup: Setup, batch: nat, s: System, h: ChunkHeader)
    requires Inv(batch, s) && s.client.Asking? && Delivered(setup, batch, s)
    requires h.part == s.client.Part() && (s.client.progress.Rest? ==> h.total == s.client.progress.total)
    requires IsDeliverable(setup, batch, h.total, h.part - 1, PartOf(s.history[|s.history| - 1], batch, h.part - 1))
    ensures GetThrough(setup, s.history, batch,
                       (if s.client.progress.First? then [] else s.picks) + [|s.history| - 1], h.total)
  {
    hide IsDeliverable, PartOf, IsMixture, IsAssembly, IsPublishable;
    PickGetsThrough(setup, s.history, batch, if s.client.progress.First? then [] else s.picks, h.total, |s.history| - 1);
  }

  lemma {:induction false} RunKeepsDelivered(setup: Setup, batch: nat, s: System, es: seq<Event>)
    requires setup.Valid() && batch <= MAX_INT && Inv(batch, s) && Delivered(setup, batch, s)
    requires IsRun(setup, batch, s, es)
    ensures Delivered(setup, batch, After(setup, s, es))
    decreases |es|
  {
    if es != [] {
      hide Inv, Delivered, Next;
      StepKeepsInv(setup, batch, s, es[0]);
      StepKeepsDelivered(setup, batch, s, es[0]);
      RunKeepsDelivered(setup, batch, Next(setup, s, es[0]), es[1..]);
    }
  }

  // A mixture in order of age whose parts get through.
  ghost predicate CanBeAssembled(setup: Setup, gens: seq<batchmap>, batch: nat, picks: seq<nat>, text: string) {
    && IsAssembly(gens, batch, picks, text) && |picks| <= Client.MAX_ARRAY_LENGTH
    && GetThrough(setup, gens, batch, picks, |picks|)
  }

  // Exactly what a fetch can end with while the generations gens are published.
  lemma AssembledExactly(setup: Setup, batch: nat, gens: seq<batchmap>, text: string)
    requires setup.Valid() && batch <= MAX_INT && gens != [] && ArePublishable(gens)
    ensures (exists es :: IsRun(setup, batch, Init(gens[0]), es)
                       && EndsWith(After(setup, Init(gens[0]), es), gens, text))
       <==> (exists picks :: CanBeAssembled(setup, gens, batch, picks, text))
  {
    hide IsDeliverable, IsPublishable, IsRun, After, Next, IsMixture, GetThrough;
    if es :| IsRun(setup, batch, Init(gens[0]), es) && EndsWith(After(setup, Init(gens[0]), es), gens, text) {
      assert IsPublishable(gens[0]);
      RunKeepsInv(setup, batch, Init(gens[0]), es);
      RunKeepsDelivered(setup, batch, Init(gens[0]), es);
      assert CanBeAssembled(setup, gens, batch, After(setup, Init(gens[0]), es).picks, text);
    }
    if picks :| CanBeAssembled(setup, gens, batch, picks, text) {
      var es := MixtureReachable(setup, batch, gens, picks);
      assert EndsWith(After(setup, Init(gens[0]), es), gens, text);
    }
  }

  predicate EndsWith(t: System, gens: seq<batchmap>, text: string) {
    t.history == gens && t.client.Done? && t.client.ciphertext == text
  }

  // ---- Generations do mix ----

  const EXAMPLE_SETUP := Setup(["t"], "t", 512)

  function OldGeneration(): batchmap {
    map[0 := ["A", "B"]]
  }

  function NewGeneration(): batchmap {
    map[0 := ["C", "D"]]
  }

  // The check of part number and total does not tell generations apart: a fetch can
  // end with a text that no generation ever had.
  lemma GenerationsCanMix() returns (es: seq<Event>)
    ensures EXAMPLE_SETUP.Valid() && ArePublishable([OldGeneration(), NewGeneration()])
    ensures IsRun(EXAMPLE_SETUP, 0, Init(OldGeneration()), es)
    ensures var t := After(EXAMPLE_SETUP, Init(OldGeneration()), es);
      t.history == [OldGeneration(), NewGeneration()] && t.client.Done?
      && t.client.ciphertext != Concat(Lookup(OldGeneration(), 0))
      && t.client.ciphertext != Concat(Lookup(NewGeneration(), 0))
  {
    hide IsDeliverable, IsPublishable, IsRun, After, Next, OldGeneration, NewGeneration, Concat, Mixture;
    ExampleSetupIsValid();
    ExampleBatches();
    var gens := [OldGeneration(), NewGeneration()];
    var picks: seq<nat> := [0, 1];
    ExampleIsDeliverable();
    es := MixtureReachable(EXAMPLE_SETUP, 0, gens, picks);
    PartsAreMixture(gens, 0, picks, ["A", "D"]);
    ConcatTwo("A", "D");
    ConcatTwo("A", "B");
    ConcatTwo("C", "D");
    assert ("A" + "D")[1] != ("A" + "B")[1] && ("A" + "D")[0] != ("C" + "D")[0];
  }

  lemma ExampleSetupIsValid()
    ensures EXAMPLE_SETUP.Valid()
  {
    assert Join(["t"], DOT) == "t";
    assert Lower("t") == "t";
  }

  lemma ExampleBatches()
    ensures IsPublishable(OldGeneration()) && IsPublishable(NewGeneration())
    ensures Lookup(OldGeneration(), 0) == ["A", "B"] && Lookup(NewGeneration(), 0) == ["C", "D"]
  {
  }

  lemma ConcatTwo(a: string, b: string)
    ensures Concat([a, b]) == a + b
  {
    assert [a, b][1..] == [b];
    assert Concat([b]) == b;
  }

  lemma ExampleIsDeliverable()
    ensures GetThrough(EXAMPLE_SETUP, [OldGeneration(), NewGeneration()], 0, [0, 1], 2)
  {
    hide OldGeneration, NewGeneration, OwnQueryFor;
    ExampleSetupIsValid();
    ExampleBatches();
    var gens := [OldGeneration(), NewGeneration()];
    var picks: seq<nat> := [0, 1];
    forall j | 0 <= j < |picks|
      ensures IsDeliverable(EXAMPLE_SETUP, 0, 2, j, PartOf(gens[picks[j]], 0, j))
    {
      assert |PartOf(gens[picks[j]], 0, j)| == 1;
      ExampleQuery(EXAMPLE_SETUP, j + 1);
      OneDigit(0);
      OneDigit(2);
      OneDigit(j + 1);
    }
  }

  lemma OneDigit(n: nat)
    requires n < 10
    ensures |Digits(n)| == 1
  {
  }

  lemma ExampleQuery(setup: Setup, part: nat)
    requires setup == EXAMPLE_SETUP && setup.Valid() && part < 10
    ensures |OwnQueryFor(setup, 0, part)| <= 64
  {
    hide Digits, Query, LabelsOf, EncodeName, Join, Address.Normalize, Address.IsDomain;
    var ls := Address.PartLabels(0, part) + setup.labels;
    NameLabels(setup, 0, part);
    OneDigit(0);
    OneDigit(part);
    PartLabelsAreClientLabels(0, part);
    assert IsClientLabel("t");
    assert ls == ["b" + Digits(0), "p" + Digits(part), "msg", "t"];
    NameRoundTrip(ls, 0);
    QueryName(0, ls);
    EncodedNameLength(ls, 4);
  }

  lemma EncodedNameLength(ls: seq<string>, most: nat)
    requires forall k :: 0 <= k < |ls| ==> |ls[k]| <= most
    ensures |EncodeName(ls)| <= |ls| * (most + 1) + 1
  {
    hide EncodeLabels;
    EncodedLength(ls, most);
  }

  lemma {:induction false} EncodedLength(ls: seq<string>, most: nat)
    requires forall k :: 0 <= k < |ls| ==> |ls[k]| <= most
    ensures |EncodeLabels(ls)| <= |ls| * (most + 1)
  {
    if ls != [] {
      EncodedLength(ls[1..], most);
      assert |ls| * (most + 1) == (|ls| - 1) * (most + 1) + (most + 1);
    }
  }
}
