/**
 Domain names on the wire (sections 3.1 and 4.1.2 of RFC 1035): the client's
 `buildTXTQuery` and the server's `parseQName`.
 */
module WireName {
  import opened Wrappers
  import opened Text

  const MAX_LABEL := 63

  predicate IsWireLabel(l: string) {
    1 <= |l| <= 63 && IsByteText(l)
  }

  predicate AreWireLabels(ls: seq<string>) {
    forall k :: 0 <= k < |ls| ==> IsWireLabel(ls[k])
  }

  // Length and characters of each label; the length is cut to a byte.
  function EncodeLabels(ls: seq<string>): seq<byte> {
    if ls == [] then [] else [|ls[0]| % 256] + ToBytes(ls[0]) + EncodeLabels(ls[1..])
  }

  function EncodeName(ls: seq<string>): seq<byte> {
    EncodeLabels(ls) + [0]
  }

  lemma {:induction false} EncodeLabelsConcat(a: seq<string>, b: seq<string>)
    ensures EncodeLabels(a + b) == EncodeLabels(a) + EncodeLabels(b)
  {
    if a == [] {
      assert a + b == b;
    } else {
      assert (a + b)[1..] == a[1..] + b;
      EncodeLabelsConcat(a[1..], b);
    }
  }

  lemma EncodeLabelsSnoc(ls: seq<string>, i: nat)
    requires i < |ls|
    ensures EncodeLabels(ls[..i + 1]) == EncodeLabels(ls[..i]) + [|ls[i]| % 256] + ToBytes(ls[i])
  {
    assert ls[..i + 1] == ls[..i] + [ls[i]];
    EncodeLabelsConcat(ls[..i], [ls[i]]);
  }

  lemma EncodeNoLabels(ls: seq<string>)
    ensures EncodeLabels(ls[..0]) == []
  {
  }

  // The labels from offset on, and the position after the closing zero.
  function ReadLabels(p: seq<byte>, offset: nat): (r: Option<(seq<string>, nat)>)
    ensures r.Some? ==> offset < r.value.1 <= |p|
    decreases |p| - offset
  {
    if offset >= |p| then None
    else if p[offset] == 0 then Some(([], offset + 1))
    else
      var next := offset + 1 + p[offset];
      if p[offset] > MAX_LABEL || next > |p| then None
      else
        match ReadLabels(p, next)
        case None => None
        case Some((ls, end)) => Some(([ToText(p[offset + 1..next])] + ls, end))
  }

  /** `parseQName`: the dotted name and the position after it, or ("", -1). */
  method ParseQName(packet: seq<byte>, offset0: nat) returns (name: string, end: int)
    ensures ReadLabels(packet, offset0).None? ==> name == "" && end == -1
    ensures ReadLabels(packet, offset0).Some? ==>
              var (ls, e) := ReadLabels(packet, offset0).value; name == Join(ls, DOT) && end == e
  {
    var labels: seq<string> := [];
    var offset := offset0;
    PrependNothing(ReadLabels(packet, offset0));
    while true
      invariant ReadLabels(packet, offset0) == Prepend(labels, ReadLabels(packet, offset))
      decreases |packet| - offset
    {
      if offset >= |packet| {
        return "", -1;
      }
      var l := packet[offset];
      if l == 0 {
        assert labels + [] == labels;
        return Join(labels, DOT), offset + 1;
      }
      if l > MAX_LABEL || offset + 1 + l > |packet| {
        return "", -1;
      }
      PrependPrepend(labels, [ToText(packet[offset + 1..offset + 1 + l])], ReadLabels(packet, offset + 1 + l));
      labels := labels + [ToText(packet[offset + 1..offset + 1 + l])];
      offset := offset + 1 + l;
    }
  }

  function Prepend(first: seq<string>, r: Option<(seq<string>, nat)>): Option<(seq<string>, nat)> {
    match r
    case None => None
    case Some((ls, end)) => Some((first + ls, end))
  }

  lemma PrependNothing(r: Option<(seq<string>, nat)>)
    ensures Prepend([], r) == r
  {
    if r.Some? {
      assert [] + r.value.0 == r.value.0;
    }
  }

  lemma PrependPrepend(a: seq<string>, b: seq<string>, r: Option<(seq<string>, nat)>)
    ensures Prepend(a, Prepend(b, r)) == Prepend(a + b, r)
  {
    if r.Some? {
      assert a + (b + r.value.0) == a + b + r.value.0;
    }
  }

  // Reading succeeds exactly on the encodings of lists of labels, and consumes
  // exactly the encoding.
  lemma {:induction false} ReadLabelsIff(p: seq<byte>, offset: nat, ls: seq<string>, end: nat)
    ensures ReadLabels(p, offset) == Some((ls, end))
       <==> AreWireLabels(ls) && offset < end <= |p| && p[offset..end] == EncodeName(ls)
    decreases |p| - offset
  {
    if ReadLabels(p, offset) == Some((ls, end)) {
      ReadLabelsSound(p, offset);
    }
    if AreWireLabels(ls) && offset < end <= |p| && p[offset..end] == EncodeName(ls) {
      ReadLabelsComplete(p, offset, ls, end);
    }
  }

  lemma EncodeNameStep(ls: seq<string>)
    requires ls != [] && |ls[0]| < 256
    ensures EncodeName(ls) == [|ls[0]|] + ToBytes(ls[0]) + EncodeName(ls[1..])
  {
    var l, rest := ls[0], EncodeLabels(ls[1..]);
    assert |l| % 256 == |l|;
    assert ([|l|] + ToBytes(l) + rest) + [0] == [|l|] + ToBytes(l) + (rest + [0]);
  }

  // A label in front of labels.
  lemma FirstLabelSound(p: seq<byte>, offset: nat, next: nat, end: nat, rest: seq<string>)
    requires offset + 1 < next < end <= |p| && next == offset + 1 + p[offset] && p[offset] <= MAX_LABEL
    requires AreWireLabels(rest) && p[next..end] == EncodeName(rest)
    ensures var ls := [ToText(p[offset + 1..next])] + rest;
      AreWireLabels(ls) && p[offset..end] == EncodeName(ls)
  {
    hide EncodeName;
    var label0 := ToText(p[offset + 1..next]);
    var ls := [label0] + rest;
    BytesOfText(p[offset + 1..next]);
    EncodeNameStep(ls);
    assert ls[1..] == rest;
    assert p[offset..end] == [p[offset]] + p[offset + 1..next] + p[next..end];
    assert forall k :: 1 <= k < |ls| ==> ls[k] == rest[k - 1];
  }

  lemma {:induction false} ReadLabelsSound(p: seq<byte>, offset: nat)
    requires ReadLabels(p, offset).Some?
    ensures var (ls, end) := ReadLabels(p, offset).value;
      AreWireLabels(ls) && offset < end <= |p| && p[offset..end] == EncodeName(ls)
    decreases |p| - offset
  {
    var (ls, end) := ReadLabels(p, offset).value;
    if p[offset] != 0 {
      var next := offset + 1 + p[offset];
      ReadLabelsSound(p, next);
      var rest := ReadLabels(p, next).value.0;
      assert ls == [ToText(p[offset + 1..next])] + rest;
      FirstLabelSound(p, offset, next, end, rest);
    }
  }

  lemma FirstLabel(p: seq<byte>, offset: nat, end: nat, l: byte, t: seq<byte>, rest: seq<byte>)
    requires offset <= end <= |p| && |t| == l
    requires p[offset..end] == [l] + t + rest
    ensures p[offset] == l && offset + 1 + l + |rest| == end
    ensures p[offset + 1..offset + 1 + l] == t && p[offset + 1 + l..end] == rest
  {
    var w := p[offset..end];
    assert |w| == 1 + l + |rest|;
    assert w[1..1 + l] == t && w[1 + l..|w|] == rest && w[0] == l;
    SliceOfSlice(p, offset, end, 1, 1 + l);
    SliceOfSlice(p, offset, end, 1 + l, |w|);
  }

  lemma {:induction false} ReadLabelsComplete(p: seq<byte>, offset: nat, ls: seq<string>, end: nat)
    requires AreWireLabels(ls) && offset < end <= |p| && p[offset..end] == EncodeName(ls)
    ensures ReadLabels(p, offset) == Some((ls, end))
    decreases |ls|
  {
    var w := p[offset..end];
    if ls == [] {
      assert w == [0];
      assert p[offset] == w[0];
    } else {
      var l := ls[0];
      var next := offset + 1 + |l|;
      EncodeNameStep(ls);
      FirstLabel(p, offset, end, |l|, ToBytes(l), EncodeName(ls[1..]));
      ReadLabelsComplete(p, next, ls[1..], end);
      TextOfBytes(l);
      assert ls == [l] + ls[1..];
    }
  }

  // ---- The client's query ----

  // The characters JavaScript's `trim` and `\s` take for white space.
  predicate IsSpace(c: char) {
    var x := c as int;
    9 <= x <= 13 || x == 32 || x == 0xA0 || x == 0x1680 || 0x2000 <= x <= 0x200A
    || x == 0x2028 || x == 0x2029 || x == 0x202F || x == 0x205F || x == 0x3000 || x == 0xFEFF
  }

  predicate HasNoSpace(s: string) {
    forall i :: 0 <= i < |s| ==> !IsSpace(s[i])
  }

  function Trim(s: string): string
    decreases |s|
  {
    if s != "" && IsSpace(s[0]) then Trim(s[1..])
    else if s != "" && IsSpace(s[|s| - 1]) then Trim(s[..|s| - 1])
    else s
  }

  // `.map(trim).filter(Boolean)`
  function NonEmptyTrimmed(pieces: seq<string>): seq<string> {
    if pieces == [] then []
    else if Trim(pieces[0]) == "" then NonEmptyTrimmed(pieces[1..])
    else [Trim(pieces[0])] + NonEmptyTrimmed(pieces[1..])
  }

  function LabelsOf(name: string): seq<string> {
    NonEmptyTrimmed(Split(name, DOT))
  }

  function Query(id: nat, ls: seq<string>): seq<byte>
    requires id < 0x1_0000
  {
    [id / 256, id % 256, 1, 0, 0, 1, 0, 0, 0, 0, 0, 0] + EncodeName(ls) + [0, 16, 0, 1]
  }

  /** `buildTXTQuery`: header, one length-prefixed buffer per label, zero, type and class. */
  method BuildTXTQuery(name: string, id: nat) returns (packet: seq<byte>)
    requires id < 65535
    ensures packet == Query(id, LabelsOf(name))
  {
    hide EncodeLabels, LabelsOf, ToBytes;
    var labels := LabelsOf(name);
    EncodeNoLabels(labels);
    var parts: seq<byte> := QueryHeader(id);
    ghost var head := parts;
    var i := 0;
    while i < |labels|
      invariant 0 <= i <= |labels|
      invariant parts == head + EncodeLabels(labels[..i])
    {
      EncodeLabelsSnoc(labels, i);
      parts := parts + [|labels[i]| % 256];
      parts := parts + ToBytes(labels[i]);
      i := i + 1;
    }
    assert labels[..|labels|] == labels;
    parts := parts + [0];
    assert parts == head + EncodeName(labels);
    packet := parts + [0, 16, 0, 1];
  }

  // Identifier, recursion desired, one question.
  method QueryHeader(id: nat) returns (head: seq<byte>)
    requires id < 65535
    ensures head == [id / 256, id % 256, 1, 0, 0, 1, 0, 0, 0, 0, 0, 0]
  {
    var header := new byte[12](i => 0);
    header[0], header[1] := id / 256, id % 256;
    header[2], header[3] := 1, 0;
    header[4], header[5] := 0, 1;
    head := header[..];
  }

  // A label as the client writes it: no dot, no white space, 1 to 63 bytes.
  predicate IsClientLabel(l: string) {
    IsWireLabel(l) && HasNoSpace(l) && DOT !in l
  }

  lemma {:induction false} ClientLabelsUnchanged(ls: seq<string>)
    requires forall k :: 0 <= k < |ls| ==> IsClientLabel(ls[k])
    ensures NonEmptyTrimmed(ls) == ls
  {
    if ls != [] {
      assert Trim(ls[0]) == ls[0];
      ClientLabelsUnchanged(ls[1..]);
    }
  }

  lemma QueryName(id: nat, ls: seq<string>)
    requires id < 0x1_0000
    ensures var packet := Query(id, ls);
      |packet| == 16 + |EncodeName(ls)| > 16 && packet[12..|packet| - 4] == EncodeName(ls)
  {
    assert |EncodeName(ls)| >= 1;
    hide EncodeName;
  }

  // The name of a query packet is read back by the server, four bytes before the end.
  lemma NameRoundTrip(ls: seq<string>, id: nat)
    requires ls != [] && id < 65535
    requires forall k :: 0 <= k < |ls| ==> IsClientLabel(ls[k])
    ensures LabelsOf(Join(ls, DOT)) == ls
    ensures var packet := Query(id, LabelsOf(Join(ls, DOT)));
      ReadLabels(packet, 12) == Some((ls, |packet| - 4))
  {
    hide ReadLabels, Query, Join, Split, NonEmptyTrimmed, EncodeName;
    SplitJoin(ls, DOT);
    ClientLabelsUnchanged(ls);
    QueryName(id, ls);
    ReadLabelsIff(Query(id, ls), 12, ls, |Query(id, ls)| - 4);
  }

  // ---- Trimming and empty labels ----

  predicate IsBlank(s: string) {
    forall i :: 0 <= i < |s| ==> IsSpace(s[i])
  }

  // Trimming takes the white space off both ends, and nothing else.
  lemma {:induction false} TrimIs(s: string) returns (lead: string, trail: string)
    ensures s == lead + Trim(s) + trail && IsBlank(lead) && IsBlank(trail)
    ensures var t := Trim(s); t != "" ==> !IsSpace(t[0]) && !IsSpace(t[|t| - 1])
    decreases |s|
  {
    hide IsSpace;
    if s != "" && IsSpace(s[0]) {
      lead, trail := TrimIs(s[1..]);
      assert s == [s[0]] + (lead + Trim(s[1..]) + trail);
      lead := [s[0]] + lead;
    } else if s != "" && IsSpace(s[|s| - 1]) {
      lead, trail := TrimIs(s[..|s| - 1]);
      assert s == (lead + Trim(s[..|s| - 1]) + trail) + [s[|s| - 1]];
      trail := trail + [s[|s| - 1]];
    } else {
      lead, trail := "", "";
    }
  }

  // Each piece of a name becomes a label in its place, trimmed, unless it is blank.
  lemma {:induction false} LabelsInOrder(a: seq<string>, piece: string, b: seq<string>)
    ensures NonEmptyTrimmed(a + [piece] + b)
         == NonEmptyTrimmed(a) + (if IsBlank(piece) then [] else [Trim(piece)]) + NonEmptyTrimmed(b)
  {
    if a == [] {
      assert a + [piece] + b == [piece] + b && ([piece] + b)[1..] == b;
      var lead, trail := TrimIs(piece);
      if Trim(piece) == "" {
        assert piece == lead + trail;
      } else {
        assert piece[|lead|] == Trim(piece)[0];
      }
    } else {
      assert (a + [piece] + b)[1..] == a[1..] + [piece] + b;
      LabelsInOrder(a[1..], piece, b);
    }
  }
}
