/**
 A TXT answer (sections 3.3.14, 4.1 and 4.2.1 of RFC 1035): the server's
 `buildTXTResponse` over its batch cache, and the client's `parseFirstTXT`.
 */
module Response {
  import opened Wrappers
  import opened Text
  import opened Decimal
  import opened WireName
  import Address
  import opened Header

  // A Go slice has at most MAX_INT elements, and a Go string is made of bytes.
  type chunklist = c: seq<string> | |c| <= MAX_INT && forall k :: 0 <= k < |c| ==> IsByteText(c[k]) witness []
  type batchmap = map<int, chunklist>

  /** The server's cache, replaced as a whole on every refresh. */
  class BatchCache {
    var batches: batchmap

    constructor ()
      ensures batches == map[]
    {
      batches := map[];
    }

    method Set(newBatches: batchmap)
      modifies this
      ensures batches == newBatches
    {
      batches := newBatches;
    }

    // A missing batch is Go's nil slice.
    function Get(batchIdx: int): chunklist
      reads this
    {
      Lookup(batches, batchIdx)
    }
  }

  function Lookup(batches: batchmap, batchIdx: int): chunklist {
    if batchIdx in batches then batches[batchIdx] else []
  }

  // ---- Padding ----

  // The character-string of an answer: one length byte, then the text.
  method BuildAnswerRdata(txt0: string) returns (out: seq<byte>)
    ensures out == Rdata(Cut255(txt0))
  {
    var txt := txt0;
    if |txt| > 255 {
      txt := txt[..255];
    }
    out := [];
    out := out + [|txt|];
    out := out + ToBytes(txt);
  }

  function Rdata(txt: string): (r: seq<byte>)
    requires |txt| <= 255
    ensures |r| == |txt| + 1
  {
    [|txt|] + ToBytes(txt)
  }

  // The padding the server ends up with when the text may be room characters long:
  // all of the draw if the cut at 255 makes any text fit, else what room is left.
  function FitPadding(head: string, chunk: string, draw: nat, room: int): nat
    requires |Cut255(head + chunk + ".")| <= room
  {
    if room >= 255 || |head| + |chunk| + 1 + draw <= room then draw
    else room - (|head| + |chunk| + 1)
  }

  function FitText(head: string, chunk: string, draw: int, room: int): (r: Option<string>)
    ensures r.Some? ==> |r.value| <= 255 && |r.value| <= room
  {
    if draw < 0 || |Cut255(head + chunk + ".")| > room then None
    else Some(PaddedText(head, chunk, FitPadding(head, chunk, draw, room)))
  }

  // The loop's answer described by what fits: there is a text exactly when the
  // unpadded one fits, and then it has the largest padding up to the draw that fits.
  ghost predicate IsLargestFit(head: string, chunk: string, draw: int, room: int, r: Option<string>) {
    && (r.Some? <==> draw >= 0 && |PaddedText(head, chunk, 0)| <= room)
    && (r.Some? ==> exists k: nat ::
          && k <= draw && r.value == PaddedText(head, chunk, k) && |r.value| <= room
          && forall j: nat :: k < j <= draw ==> |PaddedText(head, chunk, j)| > room)
  }

  lemma FitTextIsLargest(head: string, chunk: string, draw: int, room: int)
    ensures IsLargestFit(head, chunk, draw, room, FitText(head, chunk, draw, room))
  {
    assert head + chunk + "." + Repeat('x', 0) == head + chunk + ".";
    var r := FitText(head, chunk, draw, room);
    if r.Some? {
      var k := FitPadding(head, chunk, draw, room);
      assert r.value == PaddedText(head, chunk, k);
    }
  }

  /** Shrink the padding, one letter at a time, until the estimate of the answer fits. */
  method BuildTXTWithinCap(partHeader: string, chunk: string, padMin: int, padMax: int,
                           maxBytes: int, queryLen: int, random: nat)
    returns (txt: string, ok: bool)
    requires padMax > padMin ==> random <= padMax - padMin
    ensures (if ok then Some(txt) else None)
         == FitText(partHeader, chunk, Draw(padMin, padMax, random), maxBytes - queryLen - 13)
  {
    var paddingLen := padMin;
    if padMax > padMin {
      paddingLen := padMin + random;
    }
    ghost var draw := paddingLen;
    ghost var room := maxBytes - queryLen - 13;
    while paddingLen >= 0
      invariant paddingLen <= draw
      invariant draw < 0 ==> paddingLen == draw
      invariant draw >= 0 ==> paddingLen >= -1
      invariant forall j: nat :: paddingLen < j <= draw ==> |PaddedText(partHeader, chunk, j)| > room
    {
      txt := partHeader + chunk + "." + Repeat('x', paddingLen);
      if |txt| > 255 {
        txt := txt[..255];
      }
      assert txt == PaddedText(partHeader, chunk, paddingLen);
      var answer := BuildAnswerRdata(txt);
      var baseResp := 12 + (queryLen - 12) + 2 + 2 + 2 + 4 + 2;
      if baseResp + |answer| <= maxBytes {
        FitTextUnique(partHeader, chunk, draw, room, paddingLen);
        return txt, true;
      }
      paddingLen := paddingLen - 1;
    }
    if draw >= 0 {
      assert |PaddedText(partHeader, chunk, 0)| > room;
      FitTextIsLargest(partHeader, chunk, draw, room);
    }
    return "", false;
  }

  function Draw(padMin: int, padMax: int, random: nat): int {
    if padMax > padMin then padMin + random else padMin
  }

  // The draws are exactly the numbers from padMin to padMax, or padMin alone.
  lemma DrawRange(padMin: int, padMax: int, d: int)
    ensures (exists random: nat ::
               random <= (if padMax > padMin then padMax - padMin else 0) && d == Draw(padMin, padMax, random))
       <==> d == padMin || padMin <= d <= padMax
  {
    if padMin <= d {
      assert padMax > padMin ==> Draw(padMin, padMax, d - padMin) == d;
    }
    assert Draw(padMin, padMax, 0) == padMin;
  }

  lemma FitTextUnique(head: string, chunk: string, draw: int, room: int, k: nat)
    requires k <= draw && |PaddedText(head, chunk, k)| <= room
    requires forall j: nat :: k < j <= draw ==> |PaddedText(head, chunk, j)| > room
    ensures FitText(head, chunk, draw, room) == Some(PaddedText(head, chunk, k))
  {
    var n := |head| + |chunk| + 1;
    assert |PaddedText(head, chunk, k)| == if n + k > 255 then 255 else n + k;
    assert |Cut255(head + chunk + ".")| <= room;
    var best := FitPadding(head, chunk, draw, room);
    assert |PaddedText(head, chunk, best)| == if n + best > 255 then 255 else n + best;
    assert |PaddedText(head, chunk, best)| <= room;
    assert best <= k && !(best < k);
  }

  // ---- The query ----

  function Be16(p: seq<byte>, i: nat): nat
    requires i + 2 <= |p|
  {
    var high: int := p[i];
    high * 256 + p[i + 1]
  }

  // The labels of the question and the position after its name, for a packet that the
  // server takes for a TXT query.
  function ReadQuery(q: seq<byte>): (r: Option<(seq<string>, nat)>)
    ensures r.Some? ==> r == ReadLabels(q, 12) && 12 < r.value.1 && r.value.1 + 4 <= |q|
  {
    if |q| < 12 || Be16(q, 4) != 1 then None
    else
      match ReadLabels(q, 12)
      case None => None
      case Some((ls, end)) =>
        if end + 4 > |q| || Be16(q, end) != 16 || Be16(q, end + 2) != 1 then None
        else Some((ls, end))
  }

  // The text the server answers a name with, if it answers; room is the most
  // characters that fit.
  function AnswerText(qname: string, domain: string, batches: batchmap, draw: int, room: int): Option<string> {
    var name, suffix := Address.Normalize(qname), Address.Normalize(domain);
    if !HasSuffix(name, suffix) then None
    else
      var batch, part := Address.BatchIndex(name), Address.PartIndex(name, suffix);
      var chunks := Lookup(batches, batch);
      if part < 0 || part >= |chunks| then None
      else FitText(PartHeader(batch, part + 1, |chunks|), chunks[part], draw, room)
  }

  // Two bytes of a number, the high one first.
  function U16(v: nat): seq<byte>
    requires v < 0x1_0000
  {
    [v / 256, v % 256]
  }

  // Header, question as received, and one answer whose name points to the question.
  function Packet(id: seq<byte>, question: seq<byte>, txt: string): seq<byte>
    requires |txt| <= 255
  {
    id + [0x81, 0x80, 0, 1, 0, 1, 0, 0, 0, 0]
    + question
    + [0xC0, 0x0C, 0, 16, 0, 1, 0, 0, 0, 15] + U16(|txt| + 1) + Rdata(txt)
  }

  // The answer to a query: there is no check of the final size.
  function Answer(query: seq<byte>, domain: string, batches: batchmap, draw: int, maxBytes: int): Option<seq<byte>> {
    match ReadQuery(query)
    case None => None
    case Some((ls, end)) =>
      match AnswerText(Join(ls, DOT), domain, batches, draw, maxBytes - |query| - 13)
      case None => None
      case Some(txt) => Some(Packet(query[..2], query[12..end + 4], txt))
  }

  method AppendUint16(dst: seq<byte>, v: nat) returns (out: seq<byte>)
    requires v < 0x1_0000
    ensures out == dst + U16(v)
  {
    var tmp := new byte[2](i => 0);
    tmp[0], tmp[1] := v / 256, v % 256;
    out := dst + tmp[..];
  }

  method AppendUint32(dst: seq<byte>, v: nat) returns (out: seq<byte>)
    requires v < 0x1_0000_0000
    ensures out == dst + U16(v / 0x1_0000) + U16(v % 0x1_0000)
  {
    var high := AppendUint16(dst, v / 0x1_0000);
    out := AppendUint16(high, v % 0x1_0000);
  }

  lemma PacketLength(id: seq<byte>, question: seq<byte>, txt: string)
    requires |id| == 2 && |txt| <= 255
    ensures |Packet(id, question, txt)| == 25 + |question| + |txt|
  {
  }

  /** The size check at the end never rejects, so that the result is Answer. */
  method BuildTXTResponse(query: seq<byte>, domain: string, cache: BatchCache,
                          padMin: int, padMax: int, maxBytes: int, random: nat)
    returns (response: Option<seq<byte>>)
    requires padMax > padMin ==> random <= padMax - padMin
    ensures response == Answer(query, domain, cache.batches, Draw(padMin, padMax, random), maxBytes)
  {
    hide FitText, Packet, U16, Rdata, Address.Normalize, PartHeader, ReadLabels, Join, HasSuffix;
    hide Address.BatchIndex, Address.PartIndex, Draw, IsByteText;
    if |query| < 12 {
      return None;
    }
    var id := query[..2];
    if Be16(query, 4) != 1 {
      return None;
    }
    var qname, qnameEnd := ParseQName(query, 12);
    if qnameEnd <= 0 || qnameEnd + 4 > |query| {
      return None;
    }
    var qtype, qclass := Be16(query, qnameEnd), Be16(query, qnameEnd + 2);
    if qtype != 16 || qclass != 1 {
      return None;
    }
    assert ReadQuery(query).Some?;
    var normalized := Address.Normalize(qname);
    var suffix := Address.Normalize(domain);
    if !HasSuffix(normalized, suffix) {
      return None;
    }
    var batchIdx := Address.ParseBatchIndex(normalized);
    var partIndex := Address.ParsePartIndex(normalized, suffix);
    var chunks := cache.Get(batchIdx);
    if |chunks| == 0 {
      return None;
    }
    if partIndex < 0 || partIndex >= |chunks| {
      return None;
    }
    var partHeader := PartHeader(batchIdx, partIndex + 1, |chunks|);
    var txt, ok := BuildTXTWithinCap(partHeader, chunks[partIndex], padMin, padMax, maxBytes, |query|, random);
    if !ok {
      return None;
    }
    assert FitText(partHeader, chunks[partIndex], Draw(padMin, padMax, random), maxBytes - |query| - 13) == Some(txt);
    response := AssemblePacket(id, query[12..qnameEnd + 4], txt, maxBytes);
  }

  // The packet, header fields first; rejected if it is too long after all.
  method AssemblePacket(id: seq<byte>, question: seq<byte>, txt: string, maxBytes: int)
    returns (response: Option<seq<byte>>)
    requires |id| == 2 && |txt| <= 255
    ensures response == if 25 + |question| + |txt| <= maxBytes then Some(Packet(id, question, txt)) else None
  {
    hide ToBytes, U16;
    var answer := BuildAnswerRdata(txt);
    assert Cut255(txt) == txt;
    var resp := ResponseHeader(id);
    resp := resp + question;
    ghost var front := resp;
    resp := resp + [0xC0, 0x0C];
    resp := AppendUint16(resp, 16);
    resp := AppendUint16(resp, 1);
    resp := AppendUint32(resp, 15);
    SmallNumbers();
    assert resp == front + [0xC0, 0x0C, 0, 16, 0, 1, 0, 0, 0, 15];
    resp := AppendUint16(resp, |answer|);
    resp := resp + answer;
    PacketLength(id, question, txt);
    if |resp| > maxBytes {
      return None;
    }
    return Some(resp);
  }

  lemma SmallNumbers()
    ensures U16(0) == [0, 0] && U16(1) == [0, 1] && U16(15) == [0, 15] && U16(16) == [0, 16]
  {
  }

  // Identifier, flags of an answer, one question, one answer, nothing else.
  method ResponseHeader(id: seq<byte>) returns (header: seq<byte>)
    requires |id| == 2
    ensures header == id + [0x81, 0x80, 0, 1, 0, 1, 0, 0, 0, 0]
  {
    var resp := new byte[12](i => 0);
    resp[0], resp[1] := id[0], id[1];
    resp[2], resp[3] := 0x81, 0x80;
    resp[5], resp[7] := 1, 1;
    header := resp[..];
  }

  // ---- The client's reader ----

  // The position of the first zero length byte at or after i, stepping over labels;
  // past the end if there is none.
  function SkipLabels(p: seq<byte>, i: nat): (j: nat)
    decreases |p| - i
  {
    if i < |p| && p[i] != 0 then SkipLabels(p, i + p[i] + 1) else i
  }

  function FirstTXT(p: seq<byte>): Option<string> {
    if |p| < 12 || Be16(p, 4) < 1 || Be16(p, 6) < 1 then None
    else RecordText(p, SkipLabels(p, 12) + 5)
  }

  // The first string of the record at i.
  function RecordText(p: seq<byte>, i: nat): Option<string> {
    if i + 12 > |p| then None
    else
      var rdata, rdlen := i + 12, Be16(p, i + 10);
      if Be16(p, i + 2) != 16 || rdata + rdlen > |p| || rdlen < 1 then None
      else if rdata + 1 + p[rdata] > |p| then None
      else Some(ToText(p[rdata + 1..rdata + 1 + p[rdata]]))
  }

  method ParseFirstTXT(packet: seq<byte>) returns (txt: Option<string>)
    ensures txt == FirstTXT(packet)
  {
    if |packet| < 12 { return None; }
    var qdcount, ancount := Be16(packet, 4), Be16(packet, 6);
    if qdcount < 1 || ancount < 1 { return None; }
    var i := 12;
    while i < |packet| && packet[i] != 0
      invariant SkipLabels(packet, 12) == SkipLabels(packet, i)
      decreases |packet| - i
    {
      i := i + packet[i] + 1;
    }
    i := i + 1 + 4;
    if i + 12 > |packet| { return None; }
    i := i + 2;
    var rtype := Be16(packet, i);
    i := i + 2 + 2 + 4;
    var rdlen := Be16(packet, i);
    i := i + 2;
    if rtype != 16 || i + rdlen > |packet| || rdlen < 1 { return None; }
    var txtLen := packet[i];
    if i + 1 + txtLen > |packet| { return None; }
    return Some(ToText(packet[i + 1..i + 1 + txtLen]));
  }

  // Where the server's parser reads labels, the client's loop stops at the same zero.
  lemma {:induction false} SkipReadLabels(p: seq<byte>, offset: nat)
    requires ReadLabels(p, offset).Some?
    ensures SkipLabels(p, offset) == ReadLabels(p, offset).value.1 - 1
    decreases |p| - offset
  {
    if p[offset] != 0 {
      SkipReadLabels(p, offset + 1 + p[offset]);
    }
  }

  // ---- Server against client ----

  lemma PaddedTextIsBytes(batch: int64, part: int64, total: int64, chunk: string, padding: nat)
    requires IsByteText(chunk)
    ensures IsByteText(PaddedText(PartHeader(batch, part, total), chunk, padding))
  {
    PartHeaderIsBytes(batch, part, total);
    var head := PartHeader(batch, part, total);
    hide PartHeader;
    var full := head + chunk + "." + Repeat('x', padding);
    assert IsByteText(full);
  }

  lemma PartHeaderIsBytes(batch: int64, part: int64, total: int64)
    ensures IsByteText(PartHeader(batch, part, total))
  {
    hide IntText;
    IntTextIsBytes(batch);
    IntTextIsBytes(part);
    IntTextIsBytes(total);
    var b, p, n := IntText(batch), IntText(part), IntText(total);
    assert IsByteText("b:" + b + ":c:");
    assert IsByteText("b:" + b + ":c:" + p + "/");
  }

  lemma IntTextIsBytes(v: int64)
    ensures IsByteText(IntText(v))
  {
    var s := IntText(v);
    forall i | 0 <= i < |s| ensures s[i] as int < 256 {
      if s[i] != '-' { assert IsDigit(s[i]); }
    }
  }

  lemma AnswerTextIsBytes(qname: string, domain: string, batches: batchmap, draw: int, room: int)
    requires AnswerText(qname, domain, batches, draw, room).Some?
    ensures var txt := AnswerText(qname, domain, batches, draw, room).value;
      IsByteText(txt) && |txt| <= 255 && |txt| <= room
  {
    hide PartHeader, PaddedText, Address.Normalize, HasSuffix;
    var name, suffix := Address.Normalize(qname), Address.Normalize(domain);
    var batch, part := Address.BatchIndex(name), Address.PartIndex(name, suffix);
    var chunks := Lookup(batches, batch);
    var head := PartHeader(batch, part + 1, |chunks|);
    assert FitText(head, chunks[part], draw, room).Some?;
    PaddedTextIsBytes(batch, part + 1, |chunks|, chunks[part], FitPadding(head, chunks[part], draw, room));
  }

  lemma PacketLayout(id: seq<byte>, question: seq<byte>, txt: string)
    requires |id| == 2 && |txt| <= 255
    ensures var p, n := Packet(id, question, txt), 12 + |question|;
      && |p| == n + 13 + |txt|
      && p[..2] == id && Be16(p, 2) == 0x8180
      && Be16(p, 4) == 1 && Be16(p, 6) == 1 && Be16(p, 8) == 0 && Be16(p, 10) == 0
      && p[12..n] == question
      && p[n] == 0xC0 && p[n + 1] == 0x0C
      && Be16(p, n + 2) == 16 && Be16(p, n + 4) == 1
      && Be16(p, n + 6) * 0x1_0000 + Be16(p, n + 8) == 15
      && Be16(p, n + 10) == |txt| + 1
      && p[n + 12] == |txt|
      && p[n + 13..] == ToBytes(txt)
  {
    hide ToBytes;
    var p, n := Packet(id, question, txt), 12 + |question|;
    var meta := [0xC0, 0x0C, 0, 16, 0, 1, 0, 0, 0, 15] + U16(|txt| + 1) + [|txt|];
    var front := id + [0x81, 0x80, 0, 1, 0, 1, 0, 0, 0, 0];
    assert p == front + question + meta + ToBytes(txt);
    assert p[n..n + 13] == meta;
    forall k | 0 <= k < 13 ensures p[n + k] == meta[k] {
      assert p[n..n + 13][k] == p[n + k];
    }
    assert p[..12] == front;
    forall k | 0 <= k < 12 ensures p[k] == front[k] {
      assert p[..12][k] == p[k];
    }
    assert p[..2] == id;
    assert p[n + 10] == (|txt| + 1) / 256 && p[n + 11] == (|txt| + 1) % 256;
  }

  // The address of a compression pointer (section 4.1.4 of RFC 1035).
  function PointerTarget(high: byte, low: byte): nat
    requires high >= 0xC0
  {
    (high - 0xC0) * 256 + low
  }

  // For every query the server answers, whatever follows its question: the answer
  // keeps the identifier and the question, is a response without error with one answer
  // and nothing else (section 4.1.1 of RFC 1035), may be kept for 15 seconds and is within
  // the limit, its name pointer leads to the name that was asked for, and the client reads
  // off exactly the server's text.
  lemma AnswerParses(query: seq<byte>, domain: string, batches: batchmap, draw: int, maxBytes: int)
    requires Answer(query, domain, batches, draw, maxBytes).Some?
    ensures var resp := Answer(query, domain, batches, draw, maxBytes).value;
      var (ls, end) := ReadQuery(query).value;
      && end + 16 <= |resp| <= maxBytes
      && resp[..2] == query[..2] && resp[12..end + 4] == query[12..end + 4]
      && Be16(resp, 2) == 0x8180
      && Be16(resp, 4) == 1 && Be16(resp, 6) == 1 && Be16(resp, 8) == 0 && Be16(resp, 10) == 0
      && Be16(resp, end + 6) == 16 && Be16(resp, end + 8) == 1
      && Be16(resp, end + 10) * 0x1_0000 + Be16(resp, end + 12) == 15
      && Be16(resp, end + 14) == |resp| - (end + 16)
      && resp[end + 4] >= 0xC0
      && ReadLabels(resp, PointerTarget(resp[end + 4], resp[end + 5])) == Some((ls, end))
      && FirstTXT(resp) == AnswerText(Join(ls, DOT), domain, batches, draw, maxBytes - |query| - 13)
  {
    hide AnswerText, Packet, Be16, FirstTXT, ReadLabels, ToText, ToBytes;
    var resp := Answer(query, domain, batches, draw, maxBytes).value;
    var (ls, end) := ReadQuery(query).value;
    var question := query[12..end + 4];
    AnswerTextIsBytes(Join(ls, DOT), domain, batches, draw, maxBytes - |query| - 13);
    var txt := AnswerText(Join(ls, DOT), domain, batches, draw, maxBytes - |query| - 13).value;
    assert resp == Packet(query[..2], question, txt);
    PacketLayout(query[..2], question, txt);
    SameLabels(query, resp, ls, end);
    FirstTXTIs(resp, ls, end);
    TextOfBytes(txt);
    assert resp[end + 17..end + 17 + |txt|] == resp[end + 17..];
  }

  lemma SameLabels(query: seq<byte>, resp: seq<byte>, ls: seq<string>, end: nat)
    requires ReadLabels(query, 12) == Some((ls, end)) && end + 4 <= |query|
    requires end + 4 <= |resp| && resp[12..end + 4] == query[12..end + 4]
    ensures ReadLabels(resp, 12) == Some((ls, end))
  {
    hide ReadLabels;
    ReadLabelsIff(query, 12, ls, end);
    ReadLabelsIff(resp, 12, ls, end);
    SliceOfSlice(query, 12, end + 4, 0, end - 12);
    SliceOfSlice(resp, 12, end + 4, 0, end - 12);
  }

  // ---- What is answered at all ----

  // A packet with one question, which is a name, the type TXT and the class IN, whatever
  // follows (section 4.1 of RFC 1035).
  ghost predicate IsTXTQuery(q: seq<byte>, ls: seq<string>, end: nat) {
    && |q| >= 12 && Be16(q, 4) == 1
    && AreWireLabels(ls) && 12 < end && end + 4 <= |q| && q[12..end] == EncodeName(ls)
    && Be16(q, end) == 16 && Be16(q, end + 2) == 1
  }

  lemma ReadQueryIff(q: seq<byte>, ls: seq<string>, end: nat)
    ensures ReadQuery(q) == Some((ls, end)) <==> IsTXTQuery(q, ls, end)
  {
    hide ReadLabels, EncodeName;
    ReadLabelsIff(q, 12, ls, end);
  }

  // The client's own packet, field by field.
  lemma QueryFields(id: nat, ls: seq<string>)
    requires id < 0x1_0000
    ensures var (q, n) := (Query(id, ls), 12 + |EncodeName(ls)|);
      && |q| == n + 4 && Be16(q, 0) == id && Be16(q, 2) == 0x0100
      && Be16(q, 4) == 1 && Be16(q, 6) == 0 && Be16(q, 8) == 0 && Be16(q, 10) == 0
      && q[12..n] == EncodeName(ls) && Be16(q, n) == 16 && Be16(q, n + 2) == 1
  {
    hide EncodeName;
    var (q, n) := (Query(id, ls), 12 + |EncodeName(ls)|);
    var head := [id / 256, id % 256, 1, 0, 0, 1, 0, 0, 0, 0, 0, 0];
    assert q == head + EncodeName(ls) + [0, 16, 0, 1];
    assert q[..12] == head && q[n..] == [0, 16, 0, 1];
    forall k | 0 <= k < 12 ensures q[k] == head[k] {
      assert q[..12][k] == q[k];
    }
    forall k | 0 <= k < 4 ensures q[n + k] == [0, 16, 0, 1][k] {
      assert q[n..][k] == q[n + k];
    }
  }

  // Exactly which names get a text: those that end in the domain, whose batch has the part,
  // and for which the unpadded text fits.  Of a foreign domain there is no answer.
  lemma AnswerTextIff(qname: string, domain: string, batches: batchmap, draw: int, room: int)
    ensures var (name, suffix) := (Address.Normalize(qname), Address.Normalize(domain));
      var (batch, part) := (Address.BatchIndex(name), Address.PartIndex(name, suffix));
      var chunks := Lookup(batches, batch);
      AnswerText(qname, domain, batches, draw, room).Some?
      <==> (exists prefix :: name == prefix + suffix) && 0 <= part < |chunks| && draw >= 0
           && |Cut255(PartHeader(batch, part + 1, |chunks|) + chunks[part] + ".")| <= room
  {
    hide PartHeader, PaddedText, Address.Normalize, Address.BatchIndex, Address.PartIndex, Cut255;
    var (name, suffix) := (Address.Normalize(qname), Address.Normalize(domain));
    if HasSuffix(name, suffix) {
      assert name == name[..|name| - |suffix|] + suffix;
    }
    if prefix :| name == prefix + suffix {
      assert name[|name| - |suffix|..] == suffix;
    }
  }

  // Exactly which packets get an answer.
  lemma AnswerIff(q: seq<byte>, domain: string, batches: batchmap, draw: int, maxBytes: int)
    ensures Answer(q, domain, batches, draw, maxBytes).Some?
       <==> exists ls, end :: IsTXTQuery(q, ls, end)
              && AnswerText(Join(ls, DOT), domain, batches, draw, maxBytes - |q| - 13).Some?
  {
    hide AnswerText, IsTXTQuery, ReadQuery;
    if ReadQuery(q).Some? {
      ReadQueryIff(q, ReadQuery(q).value.0, ReadQuery(q).value.1);
    }
    forall ls, end: nat | IsTXTQuery(q, ls, end) ensures ReadQuery(q) == Some((ls, end)) {
      ReadQueryIff(q, ls, end);
    }
  }

  // What the client reads of any packet whose question the server could read: the first
  // character-string of the first record behind it, when it is a TXT record that holds it.
  lemma FirstTXTIs(p: seq<byte>, ls: seq<string>, end: nat)
    requires ReadLabels(p, 12) == Some((ls, end))
    ensures FirstTXT(p)
         == if Be16(p, 4) >= 1 && Be16(p, 6) >= 1 && end + 16 <= |p| && Be16(p, end + 6) == 16
               && 1 <= Be16(p, end + 14) <= |p| - (end + 16) && p[end + 16] <= |p| - (end + 17)
            then Some(ToText(p[end + 17..end + 17 + p[end + 16]])) else None
  {
    hide ReadLabels, SkipLabels, Be16, ToText, RecordText;
    SkipReadLabels(p, 12);
    RecordTextIs(p, end);
  }

  lemma RecordTextIs(p: seq<byte>, end: nat)
    ensures RecordText(p, end + 4)
         == if end + 16 <= |p| && Be16(p, end + 6) == 16
               && 1 <= Be16(p, end + 14) <= |p| - (end + 16) && p[end + 16] <= |p| - (end + 17)
            then Some(ToText(p[end + 17..end + 17 + p[end + 16]])) else None
  {
    hide Be16, ToText;
  }
}
