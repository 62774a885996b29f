/**
 The whole tunnel: the server encodes, cuts and publishes; the client fetches part by
 part, joins and decodes.
 */
module Tunnel {
  import opened Wrappers
  import opened Text
  import opened Decimal
  import opened WireName
  import opened Header
  import opened Response
  import opened Exchange
  import opened Chunking
  import Address
  import Base64Url
  import Client

  // The chunks the server publishes for a ciphertext.
  function ChunksOf(data: seq<byte>): seq<string> {
    Pieces(Base64Url.Encode(data), MAX_TXT_CHUNK_LEN)
  }

  // What one round for a part comes to: nothing, or the server's answer to some query
  // for it that fits.
  ghost predicate IsServed(setup: Setup, batches: batchmap, batch: nat, part: nat, reply: Option<string>) {
    reply.None? || exists query, draw ::
      && Carries(setup, query, batch, part) && Fits(setup, batches, batch, part, query, draw)
      && reply == Received(setup, batches, query, draw)
  }

  // The text of the part is not cut, and there is room for it.
  predicate Fits(setup: Setup, batches: batchmap, batch: nat, part: nat, query: seq<byte>, draw: int) {
    var chunks := Lookup(batches, batch);
    && 1 <= part <= |chunks| && draw >= 0
    && BareLength(batch, part, |chunks|, chunks[part - 1]) <= 255
    && BareLength(batch, part, |chunks|, chunks[part - 1]) + |query| + 13 <= setup.maxBytes
  }

  // The network between the client and an unchanging server: every round is served,
  // and no three rounds in a row for one name are lost.
  ghost predicate IsReliable(setup: Setup, batches: batchmap, batch: nat, net: Client.network) {
    forall part, t: nat :: 1 <= part <= |Lookup(batches, batch)| ==>
      && IsServed(setup, batches, batch, part, Round(setup, batch, net, part, t))
      && !(Round(setup, batch, net, part, t).None? && Round(setup, batch, net, part, t + 1).None?
           && Round(setup, batch, net, part, t + 2).None?)
  }

  // What the network yields for a part.
  function Round(setup: Setup, batch: nat, net: Client.network, part: nat, t: nat): Option<string> {
    net(Address.PartName(batch, part, setup.Domain()), t)
  }

  // The client is fetching the given part, with everything before it in place, and the
  // last rounds since it began were lost.
  ghost predicate IsOnTrack(chunks: seq<string>, net: Client.network, name: string, c: Client.State, part: nat, time: nat) {
    && c.Valid() && c.Asking? && c.attempt == 0 && c.Part() == part
    && 1 <= part <= |chunks| <= Client.MAX_ARRAY_LENGTH
    && c.round <= time && (forall k :: time - c.round <= k < time ==> net(name, k).None?)
    && (part == 1 <==> c.progress.First?)
    && (part > 1 ==> c.progress.total == |chunks| == |c.progress.parts|
                     && c.progress.parts[..part - 1] == chunks[..part - 1])
  }

  lemma ServedPartParses(setup: Setup, batches: batchmap, batch: nat, part: nat, reply: Option<string>)
    requires setup.Valid() && batch <= MAX_INT && IsPublishable(batches)
    requires 1 <= part <= |Lookup(batches, batch)| && Lookup(batches, batch)[part - 1] != ""
    requires IsServed(setup, batches, batch, part, reply) && reply.Some?
    ensures ParseChunkHeader(reply.value)
         == Some(ChunkHeader(part, |Lookup(batches, batch)|, Lookup(batches, batch)[part - 1]))
  {
    hide ParseChunkHeader, BareLength, Received, Carries, IsPublishable;
    var query, draw :|
      && Carries(setup, query, batch, part) && Fits(setup, batches, batch, part, query, draw)
      && reply == Received(setup, batches, query, draw);
    ExchangeExact(setup, batches, query, batch, part, draw);
  }

  // The state after a part has arrived.
  lemma PartArrives(chunks: seq<string>, net: Client.network, name: string, c: Client.State, part: nat, time: nat,
                    txt: string, next: string)
    requires IsOnTrack(chunks, net, name, c, part, time)
    requires ParseChunkHeader(txt) == Some(ChunkHeader(part, |chunks|, chunks[part - 1]))
    ensures var d := Client.Step(c, Some(txt));
      if part == |chunks| then d.Done? && d.ciphertext == Concat(chunks) && d.partCount == |chunks|
      else IsOnTrack(chunks, net, next, d, part + 1, time + 1)
  {
    hide ParseChunkHeader, Concat;
    var parts := if part == 1 then Client.EmptyStrings(|chunks|) else c.progress.parts;
    var after := parts[part - 1 := chunks[part - 1]];
    assert Client.SetElement(parts, part - 1, chunks[part - 1]) == after;
    assert after[..part] == parts[..part - 1] + [chunks[part - 1]];
    assert chunks[..part] == chunks[..part - 1] + [chunks[part - 1]];
    if part == |chunks| {
      assert after == after[..part] && chunks == chunks[..part];
    }
  }

  lemma RoundLost(chunks: seq<string>, net: Client.network, name: string, c: Client.State, part: nat, time: nat)
    requires IsOnTrack(chunks, net, name, c, part, time) && net(name, time).None? && c.round < 2
    ensures IsOnTrack(chunks, net, name, Client.Step(c, None), part, time + 1)
    ensures Client.Step(c, None).round == c.round + 1
  {
  }

  lemma NotThriceLost(setup: Setup, batches: batchmap, batch: nat, net: Client.network, part: nat, t: nat)
    requires IsReliable(setup, batches, batch, net) && 1 <= part <= |Lookup(batches, batch)|
    ensures var name := Address.PartName(batch, part, setup.Domain());
      net(name, t).Some? || net(name, t + 1).Some? || net(name, t + 2).Some?
  {
    hide IsServed, Address.PartName;
    assert Round(setup, batch, net, part, t).Some? || Round(setup, batch, net, part, t + 1).Some?
        || Round(setup, batch, net, part, t + 2).Some?;
  }

  lemma {:induction false} FetchSucceeds(setup: Setup, batches: batchmap, batch: nat, net: Client.network,
                                         c: Client.State, part: nat, time: nat)
    requires setup.Valid() && batch <= MAX_INT && IsPublishable(batches)
    requires IsReliable(setup, batches, batch, net)
    requires forall k :: 0 <= k < |Lookup(batches, batch)| ==> Lookup(batches, batch)[k] != ""
    requires IsOnTrack(Lookup(batches, batch), net, Address.PartName(batch, part, setup.Domain()), c, part, time)
    ensures var d := Client.Run(net, batch, setup.Domain(), time, c);
      d.Done? && d.ciphertext == Concat(Lookup(batches, batch)) && d.partCount == |Lookup(batches, batch)|
    decreases |Lookup(batches, batch)| - part, 3 - c.round
  {
    hide IsPublishable, IsServed, ParseChunkHeader, Address.PartName, Client.Step, Concat;
    var chunks := Lookup(batches, batch);
    var name := Address.PartName(batch, part, setup.Domain());
    var reply := net(name, time);
    assert Round(setup, batch, net, part, time) == reply;
    assert IsServed(setup, batches, batch, part, reply);
    if reply.None? {
      assert c.round < 2 by {
        if time >= 2 {
          NotThriceLost(setup, batches, batch, net, part, time - 2);
        }
      }
      RoundLost(chunks, net, name, c, part, time);
      FetchSucceeds(setup, batches, batch, net, Client.Step(c, None), part, time + 1);
    } else {
      ServedPartParses(setup, batches, batch, part, reply);
      PartArrives(chunks, net, name, c, part, time, reply.value, Address.PartName(batch, part + 1, setup.Domain()));
      if part < |chunks| {
        FetchSucceeds(setup, batches, batch, net, Client.Step(c, reply), part + 1, time + 1);
      }
    }
  }

  lemma ChunksOfData(data: seq<byte>)
    requires data != []
    ensures Concat(ChunksOf(data)) == Base64Url.Encode(data)
    ensures forall k :: 0 <= k < |ChunksOf(data)| ==> ChunksOf(data)[k] != ""
  {
    hide Base64Url.Encode, Pieces, Concat, Flatten;
    var text := Base64Url.Encode(data);
    Base64Url.EncodeLength(data);
    ConcatPieces(text, MAX_TXT_CHUNK_LEN);
    PiecesCut(text, MAX_TXT_CHUNK_LEN);
  }

  // End to end: while the server keeps a batch, every fetch of it over a network that
  // does not lose three rounds in a row decodes to exactly the bytes that were
  // published, whatever the padding, the letter case and what resolvers append.
  lemma EndToEnd(setup: Setup, batches: batchmap, batch: nat, data: seq<byte>, net: Client.network)
    requires setup.Valid() && batch <= MAX_INT && IsPublishable(batches)
    requires data != [] && Lookup(batches, batch) == ChunksOf(data) && |ChunksOf(data)| <= Client.MAX_ARRAY_LENGTH
    requires IsReliable(setup, batches, batch, net)
    ensures var d := Client.Run(net, batch, setup.Domain(), 0, Client.START);
      && d.Done? && d.partCount == |ChunksOf(data)|
      && Base64Url.Decode(d.ciphertext) == Some(data)
  {
    hide IsPublishable, IsServed, Client.Run, Base64Url.Decode, Base64Url.Encode, Pieces;
    ChunksOfData(data);
    FetchSucceeds(setup, batches, batch, net, Client.START, 1, 0);
    Base64Url.DecodeEncode(data);
  }

  // ---- The client's own queries, straight to the server ----

  // A network without losses between the client's own packets and the server; ids and
  // draws are the random numbers of each round.
  datatype Line = Line(ids: nat -> nat, draws: nat -> nat)
  {
    function Network(setup: Setup, batches: batchmap): Client.network {
      (name: string, t: nat) => Received(setup, batches, Query(ids(t) % 65535, LabelsOf(name)), draws(t))
    }
  }

  // The client's own packet for a part; its length does not depend on the identifier.
  function OwnPacket(setup: Setup, batch: nat, part: nat, id: nat): seq<byte> {
    Query(id % 65535, LabelsOf(Address.PartName(batch, part, setup.Domain())))
  }

  // The text of the part is not cut, and the answer to the client's own packet is within
  // the limit.
  predicate FitsOwn(setup: Setup, batches: batchmap, batch: nat, part: nat) {
    Fits(setup, batches, batch, part, OwnPacket(setup, batch, part, 0), 0)
  }

  predicate AllFit(setup: Setup, batches: batchmap, batch: nat) {
    forall part | 1 <= part <= |Lookup(batches, batch)| :: FitsOwn(setup, batches, batch, part)
  }

  // The wire length of the client's name for a part.
  function WireLength(setup: Setup, batch: nat, part: nat): nat {
    |EncodeName(Address.PartLabels(batch, part) + setup.labels)|
  }

  lemma OwnPacketLength(setup: Setup, batch: nat, part: nat, id: nat)
    requires setup.Valid() && batch <= MAX_INT && part <= MAX_INT
    ensures |OwnPacket(setup, batch, part, id)| == 16 + WireLength(setup, batch, part)
    ensures Carries(setup, OwnPacket(setup, batch, part, id), batch, part)
  {
    hide Carries, Query, LabelsOf, EncodeName, Digits, Address.PartName;
    AtMost19Digits(batch);
    AtMost19Digits(part);
    OwnQuery(setup, batch, part, id % 65535);
    var ls := Address.PartLabels(batch, part) + setup.labels;
    NameLabels(setup, batch, part);
    PartLabelsAreClientLabels(batch, part);
    NameRoundTrip(ls, 0);
    QueryName(id % 65535, ls);
  }

  // One round over the line: the part, exactly when it fits.
  lemma LineRound(setup: Setup, batches: batchmap, batch: nat, part: nat, line: Line, t: nat)
    requires setup.Valid() && batch <= MAX_INT && IsPublishable(batches)
    requires 1 <= part <= |Lookup(batches, batch)| && Lookup(batches, batch)[part - 1] != ""
    ensures var reply := Round(setup, batch, line.Network(setup, batches), part, t);
      var chunks := Lookup(batches, batch);
      if FitsOwn(setup, batches, batch, part)
      then reply.Some? && IsServed(setup, batches, batch, part, reply)
           && ParseChunkHeader(reply.value) == Some(ChunkHeader(part, |chunks|, chunks[part - 1]))
      else reply.None? || ParseChunkHeader(reply.value).None?
  {
    hide Received, Carries, IsPublishable, ParseChunkHeader, BareLength, OwnPacket, Address.PartName, Query, LabelsOf;
    var packet := OwnPacket(setup, batch, part, line.ids(t));
    OwnPacketLength(setup, batch, part, line.ids(t));
    OwnPacketLength(setup, batch, part, 0);
    assert Round(setup, batch, line.Network(setup, batches), part, t) == Received(setup, batches, packet, line.draws(t)) by {
      LineIs(setup, batches, batch, part, line, t);
    }
    ExchangeExact(setup, batches, packet, batch, part, line.draws(t));
    if FitsOwn(setup, batches, batch, part) {
      assert Fits(setup, batches, batch, part, packet, line.draws(t));
    }
  }

  lemma LineIs(setup: Setup, batches: batchmap, batch: nat, part: nat, line: Line, t: nat)
    ensures Round(setup, batch, line.Network(setup, batches), part, t)
         == Received(setup, batches, OwnPacket(setup, batch, part, line.ids(t)), line.draws(t))
  {
    hide Received, Query, LabelsOf, Address.PartName;
  }

  lemma LineIsReliable(setup: Setup, batches: batchmap, batch: nat, line: Line)
    requires setup.Valid() && batch <= MAX_INT && IsPublishable(batches) && AllFit(setup, batches, batch)
    requires forall k :: 0 <= k < |Lookup(batches, batch)| ==> Lookup(batches, batch)[k] != ""
    ensures IsReliable(setup, batches, batch, line.Network(setup, batches))
  {
    hide IsPublishable, FitsOwn, IsServed, Round, ParseChunkHeader, Line.Network;
    forall part, t: nat | 1 <= part <= |Lookup(batches, batch)|
      ensures Round(setup, batch, line.Network(setup, batches), part, t).Some?
      ensures IsServed(setup, batches, batch, part, Round(setup, batch, line.Network(setup, batches), part, t))
    {
      LineRound(setup, batches, batch, part, line, t);
    }
  }

  // The client has not got past a part.
  predicate IsBefore(c: Client.State, n: nat, part: nat) {
    match c
    case Asking(_, _, Rest(total, next, _), _) => total == n && next <= part
    case Asking(_, _, First, _) => true
    case Done(_, _, _) => false
    case Failed(_) => true
  }

  lemma StaysBefore(c: Client.State, n: nat, part: nat, reply: Option<string>)
    requires c.Valid() && c.Asking? && IsBefore(c, n, part) && 1 <= part <= n
    requires reply.None? || ParseChunkHeader(reply.value).None?
             || (c.Part() < part && ParseChunkHeader(reply.value).value.part == c.Part()
                 && ParseChunkHeader(reply.value).value.total == n)
    ensures IsBefore(Client.Step(c, reply), n, part)
  {
    hide ParseChunkHeader, Client.SetElement, Concat;
  }

  // With a part that does not fit the fetch never ends with a text.
  lemma {:induction false} StuckBefore(setup: Setup, batches: batchmap, batch: nat, line: Line, part: nat,
                                       time: nat, c: Client.State)
    requires setup.Valid() && batch <= MAX_INT && IsPublishable(batches)
    requires forall k :: 0 <= k < |Lookup(batches, batch)| ==> Lookup(batches, batch)[k] != ""
    requires 1 <= part <= |Lookup(batches, batch)| && !FitsOwn(setup, batches, batch, part)
    requires c.Valid() && IsBefore(c, |Lookup(batches, batch)|, part)
    ensures !Client.Run(line.Network(setup, batches), batch, setup.Domain(), time, c).Done?
    decreases
      if c.Asking? then Client.MAX_ATTEMPTS - c.attempt else -1,
      if c.Asking? && c.progress.First? then 1 else 0,
      if c.Asking? && c.progress.Rest? then c.progress.total - c.progress.next else 0,
      if c.Asking? then Client.MAX_ROUNDS - c.round else 0
  {
    hide IsPublishable, FitsOwn, IsServed, ParseChunkHeader, Line.Network, Address.PartName, Client.SetElement, Concat;
    if c.Asking? {
      var net := line.Network(setup, batches);
      var reply := net(Address.PartName(batch, c.Part(), setup.Domain()), time);
      assert Round(setup, batch, net, c.Part(), time) == reply;
      LineRound(setup, batches, batch, c.Part(), line, time);
      StaysBefore(c, |Lookup(batches, batch)|, part, reply);
      StuckBefore(setup, batches, batch, line, part, time + 1, Client.Step(c, reply));
    }
  }

  // Of a batch that does not exist there is nothing to fetch.
  lemma {:induction false} NothingThere(setup: Setup, batches: batchmap, batch: nat, line: Line, time: nat, c: Client.State)
    requires setup.Valid() && batch <= MAX_INT && IsPublishable(batches) && Lookup(batches, batch) == []
    requires c.Valid() && ((c.Asking? && c.progress.First?) || c.Failed?)
    ensures !Client.Run(line.Network(setup, batches), batch, setup.Domain(), time, c).Done?
    decreases if c.Asking? then Client.MAX_ROUNDS - c.round else 0
  {
    hide IsPublishable, Line.Network, Address.PartName, OwnPacket, Received, Carries, ParseChunkHeader, BareLength;
    if c.Asking? {
      LineIs(setup, batches, batch, 1, line, time);
      OwnPacketLength(setup, batch, 1, line.ids(time));
      ExchangeExact(setup, batches, OwnPacket(setup, batch, 1, line.ids(time)), batch, 1, line.draws(time));
      NothingThere(setup, batches, batch, line, time + 1, Client.Step(c, None));
    }
  }

  // Over the line, whatever its random numbers: a fetch ends with exactly the bytes that
  // were published if and only if every part fits; otherwise it ends with no text at all.
  lemma LineDeliversIff(setup: Setup, batches: batchmap, batch: nat, data: seq<byte>, line: Line)
    requires setup.Valid() && batch <= MAX_INT && IsPublishable(batches)
    requires data != [] && Lookup(batches, batch) == ChunksOf(data) && |ChunksOf(data)| <= Client.MAX_ARRAY_LENGTH
    ensures var d := Client.Run(line.Network(setup, batches), batch, setup.Domain(), 0, Client.START);
      && (d.Done? && Base64Url.Decode(d.ciphertext) == Some(data) <==> AllFit(setup, batches, batch))
      && (d.Done? <==> AllFit(setup, batches, batch))
      && (d.Done? ==> d.partCount == |ChunksOf(data)|)
  {
    hide IsPublishable, Client.Run, Base64Url.Decode, ChunksOf, FitsOwn, Line.Network, IsReliable;
    ChunksOfData(data);
    if AllFit(setup, batches, batch) {
      LineIsReliable(setup, batches, batch, line);
      EndToEnd(setup, batches, batch, data, line.Network(setup, batches));
    } else {
      var part :| 1 <= part <= |Lookup(batches, batch)| && !FitsOwn(setup, batches, batch, part);
      StuckBefore(setup, batches, batch, line, part, 0, Client.START);
    }
  }

  lemma {:induction false} JoinHasNoSpace(labels: seq<string>)
    requires forall k :: 0 <= k < |labels| ==> IsClientLabel(labels[k])
    ensures HasNoSpace(Join(labels, DOT))
  {
    if |labels| > 1 {
      JoinHasNoSpace(labels[1..]);
    }
  }

  // Cleaning leaves a domain as it is.
  lemma DomainIsClean(setup: Setup)
    requires setup.Valid()
    ensures Client.CleanName(setup.Domain()) == setup.Domain()
  {
    JoinHasNoSpace(setup.labels);
    Client.CleanNameUnchanged(setup.Domain());
  }

  /** The client's fetch itself, over the line, for a domain as it was configured. */
  method FetchOverLine(setup: Setup, batches: batchmap, batch: nat, ghost data: seq<byte>, line: Line, domain: string)
    returns (result: Client.State)
    requires setup.Valid() && batch <= MAX_INT && IsPublishable(batches)
    requires data != [] && Lookup(batches, batch) == ChunksOf(data) && |ChunksOf(data)| <= Client.MAX_ARRAY_LENGTH
    requires domain == setup.Domain() || Client.CleanName(domain) == setup.Domain()
    ensures result.Done? <==> AllFit(setup, batches, batch)
    ensures result.Done? ==> Base64Url.Decode(result.ciphertext) == Some(data) && result.partCount == |ChunksOf(data)|
  {
    DomainIsClean(setup);
    LineDeliversIff(setup, batches, batch, data, line);
    result := Client.FetchMultipartCiphertext(line.Network(setup, batches), domain, batch);
  }

  // The numbers for the default limit of 512 bytes: three numbers of at most 27 digits in
  // all and, with the name on the wire, of at most 255 bytes are enough for every chunk.
  lemma LineDelivers(setup: Setup, batches: batchmap, batch: nat, data: seq<byte>, line: Line)
    requires setup.Valid() && setup.maxBytes == 512 && batch <= MAX_INT && IsPublishable(batches)
    requires data != [] && Lookup(batches, batch) == ChunksOf(data) && |ChunksOf(data)| <= Client.MAX_ARRAY_LENGTH
    requires forall part | 1 <= part <= |ChunksOf(data)| ::
               DigitCount(batch, part, |ChunksOf(data)|) <= 27
               && WireLength(setup, batch, part) + DigitCount(batch, part, |ChunksOf(data)|) <= 255
    ensures var d := Client.Run(line.Network(setup, batches), batch, setup.Domain(), 0, Client.START);
      d.Done? && Base64Url.Decode(d.ciphertext) == Some(data)
  {
    hide IsPublishable, Client.Run, Base64Url.Decode, ChunksOf, Line.Network, DigitCount, WireLength, OwnPacket;
    forall part | 1 <= part <= |Lookup(batches, batch)|
      ensures FitsOwn(setup, batches, batch, part)
    {
      OwnPacketLength(setup, batch, part, 0);
      ChunkLength(data, part - 1);
    }
    LineDeliversIff(setup, batches, batch, data, line);
  }

  lemma ChunkLength(data: seq<byte>, k: nat)
    requires k < |ChunksOf(data)|
    ensures |ChunksOf(data)[k]| <= MAX_TXT_CHUNK_LEN
  {
    hide Pieces, Base64Url.Encode, Flatten;
    PiecesCut(Base64Url.Encode(data), MAX_TXT_CHUNK_LEN);
  }

  // ---- When a part fits ----

  // A full chunk under the default limit of 512 bytes, asked for by the client's own
  // query: it gets through exactly when the three numbers have at most 27 digits and,
  // with the name on the wire, at most 255 bytes.
  lemma FullChunkFits(setup: Setup, batches: batchmap, batch: nat, part: nat, id: nat, draw: nat)
    requires setup.Valid() && setup.maxBytes == 512 && batch <= MAX_INT && IsPublishable(batches) && id < 65535
    requires 1 <= part <= |Lookup(batches, batch)| && |Lookup(batches, batch)[part - 1]| == MAX_TXT_CHUNK_LEN
    ensures var chunks := Lookup(batches, batch);
      var digits := DigitCount(batch, part, |chunks|);
      var query := Query(id, LabelsOf(Address.PartName(batch, part, setup.Domain())));
      var reply := Received(setup, batches, query, draw);
      (reply.Some? && ParseChunkHeader(reply.value) == Some(ChunkHeader(part, |chunks|, chunks[part - 1])))
      <==> digits <= 27 && WireLength(setup, batch, part) + digits <= 255
  {
    hide ParseChunkHeader, Received, IsPublishable, DigitCount, Carries, Query, LabelsOf, EncodeName;
    AtMost19Digits(batch);
    AtMost19Digits(part);
    OwnQuery(setup, batch, part, id);
    var query := Query(id, LabelsOf(Address.PartName(batch, part, setup.Domain())));
    var ls := Address.PartLabels(batch, part) + setup.labels;
    NameLabels(setup, batch, part);
    PartLabelsAreClientLabels(batch, part);
    NameRoundTrip(ls, id);
    QueryName(id, ls);
    ExchangeExact(setup, batches, query, batch, part, draw);
  }
}
