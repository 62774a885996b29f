/**
 The client's fetch of one batch: `fetchMultipartCiphertext` over `fetchTXTScatter`.
 One round of a scatter asks every resolver at once; it yields the first text that
 comes back, or nothing when all of them fail.
 */
module Client {
  import opened Wrappers
  import opened Text
  import opened Header
  import WireName
  import Address

  const MAX_ATTEMPTS := 3
  const MAX_ROUNDS := 3
  const RESOLVERS := 2
  const MAX_ARRAY_LENGTH := 0xFFFF_FFFF

  // The outside world: what a round for a name yields, for each round ever made.
  type network = (string, nat) -> Option<string>

  datatype FetchError =
    | LookupFailed          // three rounds without an answer: thrown
    | InvalidHeader         // first text without a header: thrown
    | InvalidArrayLength    // more parts than an array can have: thrown
    | InvalidChunk          // a later text does not fit: retried, thrown the third time

  datatype Progress = First | Rest(total: nat, next: nat, parts: seq<string>)

  datatype State =
    | Asking(attempt: nat, round: nat, progress: Progress, queries: nat)
    | Done(ciphertext: string, partCount: nat, queries: nat)
    | Failed(error: FetchError)
  {
    predicate Valid() {
      Asking? ==>
        attempt < MAX_ATTEMPTS && round < MAX_ROUNDS
        && (progress.Rest? ==> 2 <= progress.next <= progress.total <= MAX_ARRAY_LENGTH)
    }

    // The part that is being asked for.
    function Part(): nat
      requires Asking?
    {
      if progress.First? then 1 else progress.next
    }
  }

  const START := Asking(0, 0, First, 0)

  // Assigning to an element of an array: beyond the end the array grows, with holes
  // that join as empty strings; an index that is no array index changes no element.
  function SetElement(parts: seq<string>, index: int, payload: string): seq<string> {
    if 0 <= index < |parts| then parts[index := payload]
    else if |parts| <= index < MAX_ARRAY_LENGTH then parts + EmptyStrings(index - |parts|) + [payload]
    else parts
  }

  function EmptyStrings(n: nat): (r: seq<string>)
    ensures |r| == n && forall k :: 0 <= k < n ==> r[k] == ""
  {
    seq(n, i => "")
  }

  // After part next - 1 has been stored.
  function Advance(s: State, total: nat, next: nat, parts: seq<string>, queries: nat): State
    requires s.Asking?
  {
    if next <= total then Asking(s.attempt, 0, Rest(total, next, parts), queries)
    else Done(Concat(parts), total, queries)
  }

  // A text that does not fit ends the attempt; there are three.
  function Restart(attempt: nat, queries: nat): State {
    if attempt + 1 < MAX_ATTEMPTS then Asking(attempt + 1, 0, First, queries) else Failed(InvalidChunk)
  }

  // One round: nothing came back, or a text did.
  function Step(s: State, reply: Option<string>): (t: State)
    requires s.Asking? && s.Valid()
    ensures t.Valid()
  {
    match reply
    case None =>
      if s.round + 1 < MAX_ROUNDS then s.(round := s.round + 1) else Failed(LookupFailed)
    case Some(txt) =>
      var queries := s.queries + RESOLVERS * (s.round + 1);
      var header := ParseChunkHeader(txt);
      match s.progress
      case First =>
        if header.None? then Failed(InvalidHeader)
        else
          var h := header.value;
          if h.total > MAX_ARRAY_LENGTH then Failed(InvalidArrayLength)
          else Advance(s, h.total, 2, SetElement(EmptyStrings(h.total), h.part - 1, h.payload), queries)
      case Rest(total, next, parts) =>
        if header.None? || header.value.part != next || header.value.total != total then
          Restart(s.attempt, queries)
        else Advance(s, total, next + 1, SetElement(parts, next - 1, header.value.payload), queries)
  }

  function CleanName(s: string): string {
    if s == "" then ""
    else if WireName.IsSpace(s[0]) then CleanName(s[1..])
    else [s[0]] + CleanName(s[1..])
  }

  lemma {:induction false} CleanNameUnchanged(s: string)
    requires WireName.HasNoSpace(s)
    ensures CleanName(s) == s
  {
    if s != "" {
      CleanNameUnchanged(s[1..]);
    }
  }

  // Cleaning takes away white space, and nothing else, wherever it stands.
  lemma {:induction false} CleanNameAt(a: string, c: char, b: string)
    ensures CleanName(a + [c] + b) == CleanName(a) + (if WireName.IsSpace(c) then "" else [c]) + CleanName(b)
  {
    if a == "" {
      assert ([c] + b)[1..] == b && a + [c] + b == [c] + b;
    } else {
      assert (a + [c] + b)[1..] == a[1..] + [c] + b;
      CleanNameAt(a[1..], c, b);
    }
  }

  lemma {:induction false} CleanNameHasNoSpace(s: string)
    ensures WireName.HasNoSpace(CleanName(s))
  {
    if s != "" {
      CleanNameHasNoSpace(s[1..]);
    }
  }

  // The fetch of a batch, round after round, until it is over.
  function Run(net: network, batch: nat, domain: string, time: nat, s: State): (t: State)
    requires s.Valid()
    ensures !t.Asking? && t.Valid()
    decreases
      if s.Asking? then MAX_ATTEMPTS - s.attempt else -1,
      if s.Asking? && s.progress.First? then 1 else 0,
      if s.Asking? && s.progress.Rest? then s.progress.total - s.progress.next else 0,
      if s.Asking? then MAX_ROUNDS - s.round else 0
  {
    if !s.Asking? then s
    else
      var reply := net(Address.PartName(batch, s.Part(), domain), time);
      Run(net, batch, domain, time + 1, Step(s, reply))
  }

  /** `fetchTXTScatter`: up to three rounds; attempted counts the jobs that were started. */
  method FetchTXTScatter(net: network, name: string, time0: nat)
    returns (txt: Option<string>, attempted: nat, time: nat)
    ensures time0 < time <= time0 + MAX_ROUNDS && attempted == RESOLVERS * (time - time0)
    ensures forall t :: time0 <= t < time - 1 ==> net(name, t).None?
    ensures txt == net(name, time - 1)
    ensures txt.None? ==> time == time0 + MAX_ROUNDS
  {
    time, attempted, txt := time0, 0, None;
    var attempt := 0;
    while attempt < MAX_ROUNDS
      invariant 0 <= attempt <= MAX_ROUNDS && time == time0 + attempt && attempted == RESOLVERS * attempt
      invariant txt.None?
      invariant forall t :: time0 <= t < time ==> net(name, t).None?
    {
      attempted := attempted + RESOLVERS;
      txt := net(name, time);
      time := time + 1;
      if txt.Some? {
        return;
      }
      attempt := attempt + 1;
    }
  }

  // A whole scatter, in rounds.
  lemma {:induction false} ScatterRuns(net: network, batch: nat, domain: string, time0: nat, time: nat, s: State)
    requires s.Valid() && s.Asking? && time0 <= time && s.round + (time - time0) < MAX_ROUNDS
    requires forall t :: time0 <= t < time ==> net(Address.PartName(batch, s.Part(), domain), t).None?
    ensures Run(net, batch, domain, time0, s)
         == Run(net, batch, domain, time, s.(round := s.round + (time - time0)))
    decreases time - time0
  {
    hide ParseChunkHeader, Address.PartName, SetElement, Concat;
    if time0 < time {
      var s' := s.(round := s.round + 1);
      assert s'.Part() == s.Part();
      assert Step(s, None) == s';
      ScatterRuns(net, batch, domain, time0 + 1, time, s');
    }
  }

  // The end of a scatter that took the given number of rounds.
  lemma ScatterEnds(net: network, batch: nat, domain: string, time0: nat, time: nat, s: State)
    requires s.Valid() && s.Asking? && s.round == 0 && time0 < time <= time0 + MAX_ROUNDS
    requires forall t :: time0 <= t < time - 1 ==> net(Address.PartName(batch, s.Part(), domain), t).None?
    ensures Run(net, batch, domain, time0, s)
         == Run(net, batch, domain, time,
                Step(s.(round := time - 1 - time0), net(Address.PartName(batch, s.Part(), domain), time - 1)))
  {
    hide ParseChunkHeader, Address.PartName, Step;
    ScatterRuns(net, batch, domain, time0, time - 1, s);
    assert s.(round := time - 1 - time0).Part() == s.Part();
  }

  lemma RunOver(net: network, batch: nat, domain: string, time: nat, s: State)
    requires !s.Asking?
    ensures Run(net, batch, domain, time, s) == s
  {
  }

  /** `fetchMultipartCiphertext`: the loops over attempts and parts. */
  method FetchMultipartCiphertext(net: network, domain0: string, batchIdx: nat) returns (result: State)
    ensures result == Run(net, batchIdx, CleanName(domain0), 0, START)
  {
    hide ParseChunkHeader, Address.PartName, CleanName, Concat, SetElement, Run;
    var domain := CleanName(domain0);
    var totalDnsQueries := 0;
    var time := 0;
    var attempt := 0;
    while attempt < MAX_ATTEMPTS
      invariant 0 <= attempt <= MAX_ATTEMPTS
      invariant Run(net, batchIdx, domain, 0, START)
             == Run(net, batchIdx, domain, time,
                    if attempt < MAX_ATTEMPTS then Asking(attempt, 0, First, totalDnsQueries) else Failed(InvalidChunk))
    {
      ghost var s := Asking(attempt, 0, First, totalDnsQueries);
      ghost var start := time;
      var txt, attempted;
      txt, attempted, time := FetchTXTScatter(net, Address.PartName(batchIdx, 1, domain), time);
      ScatterEnds(net, batchIdx, domain, start, time, s);
      if txt.None? {
        RunOver(net, batchIdx, domain, time, Failed(LookupFailed));
        return Failed(LookupFailed);
      }
      totalDnsQueries := totalDnsQueries + attempted;
      var first := ParseChunkHeader(txt.value);
      if first.None? {
        RunOver(net, batchIdx, domain, time, Failed(InvalidHeader));
        return Failed(InvalidHeader);
      }
      var total := first.value.total;
      if total > MAX_ARRAY_LENGTH {
        RunOver(net, batchIdx, domain, time, Failed(InvalidArrayLength));
        return Failed(InvalidArrayLength);
      }
      var parts := EmptyStrings(total);
      parts := SetElement(parts, first.value.part - 1, first.value.payload);
      var i := 2;
      var rotated := false;
      while i <= total && !rotated
        invariant 2 <= i && (i <= total + 1 || i == 2)
        invariant Run(net, batchIdx, domain, 0, START)
               == Run(net, batchIdx, domain, time,
                      if rotated then Restart(attempt, totalDnsQueries)
                      else Advance(s, total, i, parts, totalDnsQueries))
        decreases total - i, !rotated
      {
        start := time;
        txt, attempted, time := FetchTXTScatter(net, Address.PartName(batchIdx, i, domain), time);
        ScatterEnds(net, batchIdx, domain, start, time, Advance(s, total, i, parts, totalDnsQueries));
        if txt.None? {
          RunOver(net, batchIdx, domain, time, Failed(LookupFailed));
          return Failed(LookupFailed);
        }
        totalDnsQueries := totalDnsQueries + attempted;
        var parsed := ParseChunkHeader(txt.value);
        if parsed.None? || parsed.value.part != i || parsed.value.total != total {
          rotated := true;
        } else {
          parts := SetElement(parts, i - 1, parsed.value.payload);
          i := i + 1;
        }
      }
      if !rotated {
        RunOver(net, batchIdx, domain, time, Done(Concat(parts), total, totalDnsQueries));
        return Done(Concat(parts), total, totalDnsQueries);
      }
      attempt := attempt + 1;
    }
    RunOver(net, batchIdx, domain, time, Failed(InvalidChunk));
    return Failed(InvalidChunk);
  }

  // ---- How a fetch ends ----

  // What a round can end the fetch with, and when it starts the fetch anew.
  lemma RoundEnds(s: State, reply: Option<string>)
    requires s.Asking? && s.Valid()
    ensures var t := Step(s, reply);
      && (t == Failed(LookupFailed) <==> reply.None? && s.round == 2)
      && (t == Failed(InvalidHeader) <==>
            reply.Some? && s.progress.First? && ParseChunkHeader(reply.value).None?)
      && (t == Failed(InvalidArrayLength) <==>
            reply.Some? && s.progress.First? && ParseChunkHeader(reply.value).Some?
            && ParseChunkHeader(reply.value).value.total > MAX_ARRAY_LENGTH)
      && (t == Failed(InvalidChunk) || (t.Asking? && t.attempt == s.attempt + 1) <==>
            reply.Some? && s.progress.Rest? && IsMisfit(s.progress, reply.value))
      && (t == Failed(InvalidChunk) ==> s.attempt == 2)
      && (t.Asking? ==> t.attempt == s.attempt || (t.attempt == s.attempt + 1 && t.progress.First? && t.round == 0))
  {
    hide ParseChunkHeader, SetElement, Concat;
  }

  // A later text that is not the part that was asked for, of as many as the first said.
  predicate IsMisfit(p: Progress, txt: string)
    requires p.Rest?
  {
    var h := ParseChunkHeader(txt);
    h.None? || h.value.part != p.next || h.value.total != p.total
  }

  // The first text fills one element of an array of empty strings, the one it names, which
  // makes the array longer if it names one beyond its end.
  lemma FirstTextStored(s: State, txt: string)
    requires s.Asking? && s.Valid() && s.progress.First? && ParseChunkHeader(txt).Some?
    requires var h := ParseChunkHeader(txt).value; 1 <= h.part <= MAX_ARRAY_LENGTH && 2 <= h.total <= MAX_ARRAY_LENGTH
    ensures var (t, h) := (Step(s, Some(txt)), ParseChunkHeader(txt).value);
      && t.Asking? && t.progress.Rest? && t.progress.total == h.total && t.progress.next == 2
      && |t.progress.parts| == (if h.part <= h.total then h.total else h.part)
      && forall k :: 0 <= k < |t.progress.parts| ==> t.progress.parts[k] == if k == h.part - 1 then h.payload else ""
  {
    hide ParseChunkHeader, Concat;
  }

  // The first text that comes back decides: without a header the fetch is over at once,
  // in whatever round it came.
  lemma FirstTextDecides(net: network, batch: nat, domain: string, time: nat)
    requires time < MAX_ROUNDS
    requires forall t :: 0 <= t < time ==> net(Address.PartName(batch, 1, domain), t).None?
    requires var reply := net(Address.PartName(batch, 1, domain), time);
      reply.Some? && ParseChunkHeader(reply.value).None?
    ensures Run(net, batch, domain, 0, START) == Failed(InvalidHeader)
  {
    hide ParseChunkHeader, Address.PartName;
    ScatterEnds(net, batch, domain, 0, time + 1, START);
    RunOver(net, batch, domain, time + 1, Failed(InvalidHeader));
  }

  // Three rounds without an answer end the fetch.
  lemma ThreeLostEnd(net: network, batch: nat, domain: string)
    requires forall t :: 0 <= t < 3 ==> net(Address.PartName(batch, 1, domain), t).None?
    ensures Run(net, batch, domain, 0, START) == Failed(LookupFailed)
  {
    hide ParseChunkHeader, Address.PartName;
    ScatterEnds(net, batch, domain, 0, 3, START);
    RunOver(net, batch, domain, 3, Failed(LookupFailed));
  }

  // The rounds a fetch takes from a state on.
  function Rounds(net: network, batch: nat, domain: string, time: nat, s: State): nat
    requires s.Valid()
    decreases
      if s.Asking? then MAX_ATTEMPTS - s.attempt else -1,
      if s.Asking? && s.progress.First? then 1 else 0,
      if s.Asking? && s.progress.Rest? then s.progress.total - s.progress.next else 0,
      if s.Asking? then MAX_ROUNDS - s.round else 0
  {
    if !s.Asking? then 0
    else
      var reply := net(Address.PartName(batch, s.Part(), domain), time);
      1 + Rounds(net, batch, domain, time + 1, Step(s, reply))
  }

  // A fetch that ends with a text reports two queries for every round it took.
  lemma {:induction false} QueriesAreCounted(net: network, batch: nat, domain: string, time: nat, s: State)
    requires s.Valid() && s.Asking?
    ensures var d := Run(net, batch, domain, time, s);
      d.Done? ==> d.queries == s.queries + 2 * (s.round + Rounds(net, batch, domain, time, s))
    decreases
      if s.Asking? then MAX_ATTEMPTS - s.attempt else -1,
      if s.Asking? && s.progress.First? then 1 else 0,
      if s.Asking? && s.progress.Rest? then s.progress.total - s.progress.next else 0,
      if s.Asking? then MAX_ROUNDS - s.round else 0
  {
    hide ParseChunkHeader, Address.PartName, SetElement, Concat;
    var t := Step(s, net(Address.PartName(batch, s.Part(), domain), time));
    if t.Asking? {
      QueriesAreCounted(net, batch, domain, time + 1, t);
    }
  }
}
