/**
 One query and its answer, end to end: the client's name on the wire, the server's
 packet, and what the client makes of it.
 */
module Exchange {
  import opened Wrappers
  import opened Text
  import opened Decimal
  import opened WireName
  import opened Header
  import opened Response
  import Address
  import Base64Url

  // How the two ends are set up: the labels of the domain the client asks under, the
  // domain the server was started with, and its limit on the size of an answer.
  datatype Setup = Setup(labels: seq<string>, configured: string, maxBytes: int)
  {
    predicate Valid() {
      Address.IsDomain(labels) && Address.Normalize(configured) == Lower(Join(labels, DOT))
    }

    function Domain(): string {
      Join(labels, DOT)
    }
  }

  // A query packet that asks for a part under the client's name, in any letter case,
  // with anything after the question: the client's own, or a resolver's.
  predicate Carries(setup: Setup, query: seq<byte>, batch: nat, part: nat) {
    match ReadQuery(query)
    case None => false
    case Some((ls, end)) => Lower(Join(ls, DOT)) == Lower(Address.PartName(batch, part, setup.Domain()))
  }

  // What arrives at the client.
  function Received(setup: Setup, batches: batchmap, query: seq<byte>, draw: int): Option<string> {
    match Answer(query, setup.configured, batches, draw, setup.maxBytes)
    case None => None
    case Some(resp) => FirstTXT(resp)
  }

  // The chunks of every batch are what base64url text is cut into.
  ghost predicate IsPublishable(batches: batchmap) {
    forall b, k :: b in batches && 0 <= k < |batches[b]| ==> Base64Url.IsUrlText(batches[b][k])
  }

  // The length of an answer's text before any padding, but for the cut at 255.
  function BareLength(batch: nat, part: nat, total: nat, chunk: string): nat {
    8 + DigitCount(batch, part, total) + |chunk|
  }

  lemma BareLengthIs(batch: nat, part: nat, total: nat, chunk: string)
    requires batch <= MAX_INT && part <= MAX_INT && total <= MAX_INT
    ensures |PartHeader(batch, part, total) + chunk + "."| == BareLength(batch, part, total, chunk)
  {
    PartHeaderIs(batch, part, total);
  }

  // What the server answers a query for a part of a batch.
  lemma AnswerTextOfPart(setup: Setup, batches: batchmap, received: string, batch: nat, part: nat, draw: int, room: int)
    requires setup.Valid() && batch <= MAX_INT && 1 <= part <= MAX_INT
    requires Lower(received) == Lower(Address.PartName(batch, part, setup.Domain()))
    ensures var chunks := Lookup(batches, batch);
      AnswerText(received, setup.configured, batches, draw, room)
      == if part > |chunks| then None
         else FitText(PartHeader(batch, part, |chunks|), chunks[part - 1], draw, room)
  {
    hide Address.Normalize, HasSuffix, FitText, PartHeader, Address.BatchIndex, Address.PartIndex;
    Address.AddressAgreement(received, batch, part, setup.labels, setup.configured);
  }

  // What the client receives for a query that carries a part: the server's text, untouched.
  lemma ReplyToPart(setup: Setup, batches: batchmap, query: seq<byte>, batch: nat, part: nat, draw: int)
    requires setup.Valid() && batch <= MAX_INT && 1 <= part <= MAX_INT
    requires Carries(setup, query, batch, part)
    ensures var chunks := Lookup(batches, batch);
      Received(setup, batches, query, draw)
      == if part > |chunks| then None
         else FitText(PartHeader(batch, part, |chunks|), chunks[part - 1], draw, setup.maxBytes - |query| - 13)
  {
    hide FirstTXT, AnswerText, Packet, PartHeader, FitText, Address.PartName, Address.Normalize, Address.IsDomain;
    var (ls, end) := ReadQuery(query).value;
    AnswerTextOfPart(setup, batches, Join(ls, DOT), batch, part, draw, setup.maxBytes - |query| - 13);
    if Answer(query, setup.configured, batches, draw, setup.maxBytes).Some? {
      AnswerParses(query, setup.configured, batches, draw, setup.maxBytes);
    }
  }

  // Exactly when a query for a part is answered, and exactly what the client reads:
  // the part it asked for with the chunk the server holds, or nothing at all.
  lemma ExchangeExact(setup: Setup, batches: batchmap, query: seq<byte>, batch: nat, part: nat, draw: int)
    requires setup.Valid() && batch <= MAX_INT && 1 <= part <= MAX_INT
    requires Carries(setup, query, batch, part)
    requires IsPublishable(batches)
    ensures var chunks := Lookup(batches, batch);
      var room := setup.maxBytes - |query| - 13;
      var reply := Received(setup, batches, query, draw);
      && (reply.Some? <==>
            && part <= |chunks| && draw >= 0
            && (room >= 255 || BareLength(batch, part, |chunks|, chunks[part - 1]) <= room))
      && (reply.Some? ==>
            ParseChunkHeader(reply.value)
            == if chunks[part - 1] != "" && BareLength(batch, part, |chunks|, chunks[part - 1]) <= 255
               then Some(ChunkHeader(part, |chunks|, chunks[part - 1]))
               else None)
  {
    hide Received, Carries, ParseChunkHeader, PartHeader, DigitCount, Address.Normalize, Address.IsDomain, PaddedText;
    var chunks := Lookup(batches, batch);
    var room := setup.maxBytes - |query| - 13;
    ReplyToPart(setup, batches, query, batch, part, draw);
    if part <= |chunks| {
      var chunk := chunks[part - 1];
      BareLengthIs(batch, part, |chunks|, chunk);
      PartHeaderIs(batch, part, |chunks|);
      var head := PartHeader(batch, part, |chunks|);
      if FitText(head, chunk, draw, room).Some? {
        assert Base64Url.IsUrlText(chunk) by {
          assert batch in batches;
        }
        PaddedTextParses(batch, part, |chunks|, chunk, FitPadding(head, chunk, draw, room));
      }
    }
  }

  // The client's own query packet carries the part, and its length is that of the
  // encoded name and 16 bytes more.
  lemma OwnQuery(setup: Setup, batch: nat, part: nat, id: nat)
    requires setup.Valid() && id < 65535
    requires |Digits(batch)| <= 62 && |Digits(part)| <= 62
    ensures var query := Query(id, LabelsOf(Address.PartName(batch, part, setup.Domain())));
      Carries(setup, query, batch, part)
  {
    hide Query, ReadQuery, LabelsOf, ReadLabels, Digits, Join, Lower, Address.Normalize;
    var ls := Address.PartLabels(batch, part) + setup.labels;
    NameLabels(setup, batch, part);
    PartLabelsAreClientLabels(batch, part);
    NameRoundTrip(ls, id);
    QueryIsRead(ls, id);
  }

  lemma QueryIsRead(ls: seq<string>, id: nat)
    requires id < 65535 && ReadLabels(Query(id, ls), 12) == Some((ls, |Query(id, ls)| - 4))
    ensures ReadQuery(Query(id, ls)) == Some((ls, |Query(id, ls)| - 4))
  {
    hide ReadLabels, EncodeName;
    QueryName(id, ls);
    var query := Query(id, ls);
    var end := |query| - 4;
    assert query[end..] == [0, 16, 0, 1];
    assert query[end] == query[end..][0] && query[end + 1] == query[end..][1];
    assert query[end + 2] == query[end..][2] && query[end + 3] == query[end..][3];
  }

  lemma NameLabels(setup: Setup, batch: nat, part: nat)
    requires setup.Valid()
    ensures Join(Address.PartLabels(batch, part) + setup.labels, DOT)
         == Address.PartName(batch, part, setup.Domain())
  {
    hide Digits, Address.Normalize;
    var b, p := "b" + Digits(batch), "p" + Digits(part);
    var ls := Address.PartLabels(batch, part) + setup.labels;
    assert ls[1..][1..][1..] == setup.labels;
    assert ls[0] == b && ls[1..][0] == p && ls[1..][1..][0] == "msg";
    assert Join(ls[1..][1..], DOT) == "msg" + [DOT] + setup.Domain();
    assert Join(ls[1..], DOT) == p + [DOT] + Join(ls[1..][1..], DOT);
    assert Join(ls, DOT) == b + [DOT] + Join(ls[1..], DOT);
    assert Address.PartName(batch, part, setup.Domain())
        == b + [DOT] + (p + [DOT] + ("msg" + [DOT] + setup.Domain()));
  }

  lemma PartLabelsAreClientLabels(batch: nat, part: nat)
    requires |Digits(batch)| <= 62 && |Digits(part)| <= 62
    ensures forall k :: 0 <= k < 3 ==> IsClientLabel(Address.PartLabels(batch, part)[k])
  {
    DigitLabel('b', batch);
    DigitLabel('p', part);
    assert IsClientLabel("msg");
  }

  lemma DigitLabel(c: char, n: nat)
    requires |Digits(n)| <= 62 && (c == 'b' || c == 'p')
    ensures IsClientLabel([c] + Digits(n))
  {
    var l := [c] + Digits(n);
    forall i | 0 <= i < |l| ensures l[i] as int < 256 && !IsSpace(l[i]) && l[i] != DOT {
      if i > 0 { assert IsDigit(l[i]); }
    }
  }

  // ---- Other names ----

  lemma WarmupName(d: string)
    requires d != ""
    ensures Split("warmup." + d, DOT) == ["warmup"] + Split(d, DOT) && Split("warmup", DOT) == ["warmup"]
    ensures HasSuffix("warmup." + d, d) && TrimSuffix("warmup." + d, "." + d) == "warmup"
  {
    var w := "warmup";
    assert DOT !in w;
    SplitConcat(w, DOT, d);
    assert "warmup." + d == w + [DOT] + d == w + ("." + d);
    assert ("warmup." + d)[7..] == d && ("warmup." + d)[6..] == "." + d && ("warmup." + d)[..6] == w;
  }

  // The probe of a resolver, `warmup.<domain>`, is answered like a query for the first part
  // of batch 0, unless a label of the domain itself names a batch.
  lemma WarmupIsFirstPart(setup: Setup, batches: batchmap, received: string, draw: int, room: int)
    requires setup.Valid() && Lower(received) == Lower("warmup." + setup.Domain())
    requires forall l :: l in Split(Lower(setup.Domain()), DOT) ==> !Address.IsBatchLabel(l)
    ensures var chunks := Lookup(batches, 0);
      AnswerText(received, setup.configured, batches, draw, room)
      == if chunks == [] then None else FitText(PartHeader(0, 1, |chunks|), chunks[0], draw, room)
  {
    hide FitText, PartHeader, Split, Join, Lower, Address.IsBatchLabel, Address.Normalize, Address.PartIn, Address.BatchIn;
    var d := Lower(setup.Domain());
    NormalWarmup(setup, received);
    WarmupName(d);
    WarmupLabels(Split(d, DOT));
  }

  lemma NormalWarmup(setup: Setup, received: string)
    requires setup.Valid() && Lower(received) == Lower("warmup." + setup.Domain())
    ensures Lower(setup.Domain()) != "" && Address.Normalize(received) == "warmup." + Lower(setup.Domain())
  {
    var d := Lower(setup.Domain());
    Address.DomainEnd(setup.labels);
    assert Lower("warmup.") == "warmup.";
    LowerConcat("warmup.", setup.Domain());
    var name := "warmup." + d;
    assert name[|name| - 1] == d[|d| - 1] != DOT;
    assert name[|name| - 1..] != ".";
  }

  lemma WarmupLabels(rest: seq<string>)
    requires forall l :: l in rest ==> !Address.IsBatchLabel(l)
    ensures Address.PartIn(["warmup"]) == 0 && Address.BatchIn(["warmup"] + rest) == 0
  {
    Address.FirstPartLabel(["warmup"], 1);
    Address.FirstBatchLabel(["warmup"] + rest, |["warmup"] + rest|);
  }

  // A name outside the domain gets no answer, whatever the cache holds.
  lemma ForeignIsSilent(received: string, configured: string, batches: batchmap, draw: int, room: int)
    requires forall prefix :: Address.Normalize(received) != prefix + Address.Normalize(configured)
    ensures AnswerText(received, configured, batches, draw, room) == None
  {
    hide AnswerText, Address.Normalize, Address.BatchIndex, Address.PartIndex, PartHeader;
    AnswerTextIff(received, configured, batches, draw, room);
  }
}
