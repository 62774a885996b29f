/**
 The text of a TXT answer, `b:<batch>:c:<part>/<total>:<chunk>.xxxx`, which the
 server builds and the client takes apart with the regular expression
 `b:\d+:c:(\d+)\/(\d+):([A-Za-z0-9\-_]+)\.`.
 */
module Header {
  import opened Wrappers
  import opened Text
  import opened Decimal
  import opened Base64Url

  datatype ChunkHeader = ChunkHeader(part: nat, total: nat, payload: string)

  const MAX_CHARACTER_STRING := 255

  // ---- The server's side ----

  function PartHeader(batch: int64, part: int64, total: int64): string {
    "b:" + IntText(batch) + ":c:" + IntText(part) + "/" + IntText(total) + ":"
  }

  function Cut255(s: string): string {
    if |s| > MAX_CHARACTER_STRING then s[..MAX_CHARACTER_STRING] else s
  }

  function PaddedText(head: string, chunk: string, padding: nat): string {
    Cut255(head + chunk + "." + Repeat('x', padding))
  }

  // ---- The client's side ----

  function UrlRun(s: string): (k: nat)
    ensures k <= |s| && IsUrlText(s[..k])
    ensures k < |s| ==> !IsUrlChar(s[k])
  {
    if s == [] || !IsUrlChar(s[0]) then 0
    else
      var k := 1 + UrlRun(s[1..]);
      assert forall i :: 1 <= i < k ==> s[i] == s[1..][..k - 1][i - 1];
      k
  }

  // Scan a literal; None if s does not begin with it.
  function Expect(s: string, literal: string): (rest: Option<string>)
    ensures rest.Some? ==> s == literal + rest.value
  {
    if HasPrefix(s, literal) then Some(s[|literal|..]) else None
  }

  // Scan `\d+`: the digits and what follows.
  function Number(s: string): (r: Option<(string, string)>)
    ensures r.Some? ==> r.value.0 != "" && AllDigits(r.value.0) && s == r.value.0 + r.value.1
  {
    var k := DigitRun(s);
    if k == 0 then None else Some((s[..k], s[k..]))
  }

  // Scan the payload class and the dot after it.
  function Payload(s: string): (r: Option<string>)
    ensures r.Some? ==> r.value != "" && IsUrlText(r.value) && r.value + "." <= s
  {
    var k := UrlRun(s);
    if k == 0 || Expect(s[k..], ".").None? then None
    else
      assert s[k] == DOT;
      Some(s[..k])
  }

  // A match of the expression at the start of s.
  function MatchHere(s: string): Option<ChunkHeader> {
    match Expect(s, "b:")
    case None => None
    case Some(s1) =>
      match Number(s1)
      case None => None
      case Some((batch, s2)) =>
        match Expect(s2, ":c:")
        case None => None
        case Some(s3) =>
          match Number(s3)
          case None => None
          case Some((part, s4)) =>
            match Expect(s4, "/")
            case None => None
            case Some(s5) =>
              match Number(s5)
              case None => None
              case Some((total, s6)) =>
                match Expect(s6, ":")
                case None => None
                case Some(s7) =>
                  match Payload(s7)
                  case None => None
                  case Some(payload) => Some(ChunkHeader(Value(part), Value(total), payload))
  }

  // The leftmost match.
  function ParseChunkHeader(txt: string): Option<ChunkHeader> {
    if MatchHere(txt).Some? then MatchHere(txt)
    else if txt == "" then None
    else ParseChunkHeader(txt[1..])
  }

  // It is the leftmost: no match begins before it, and any match is found.
  lemma {:induction false} LeftmostMatch(s: string) returns (i: nat)
    ensures i <= |s| && forall j :: 0 <= j < i ==> MatchHere(s[j..]).None?
    ensures ParseChunkHeader(s) == MatchHere(s[i..])
    ensures ParseChunkHeader(s).None? ==> i == |s|
  {
    hide MatchHere;
    assert s[0..] == s;
    if MatchHere(s).Some? || s == "" {
      i := 0;
    } else {
      i := LeftmostMatch(s[1..]);
      i := i + 1;
      assert s[1..][i - 1..] == s[i..];
      forall j | 0 <= j < i ensures MatchHere(s[j..]).None? {
        if j > 0 { assert s[1..][j - 1..] == s[j..]; }
      }
    }
  }

  // ---- The expression itself, without a scanner ----

  function Form(batch: string, part: string, total: string, payload: string): string {
    "b:" + (batch + (":c:" + (part + ("/" + (total + (":" + (payload + ".")))))))
  }

  ghost predicate InLanguage(batch: string, part: string, total: string, payload: string) {
    && batch != "" && part != "" && total != "" && payload != ""
    && AllDigits(batch) && AllDigits(part) && AllDigits(total) && IsUrlText(payload)
  }

  lemma ExpectConcat(literal: string, rest: string)
    ensures Expect(literal + rest, literal) == Some(rest)
  {
  }

  lemma NumberConcat(ds: string, rest: string)
    requires ds != "" && AllDigits(ds)
    requires rest != "" && !IsDigit(rest[0])
    ensures Number(ds + rest) == Some((ds, rest))
  {
    DigitRunConcat(ds, rest);
    assert (ds + rest)[..|ds|] == ds && (ds + rest)[|ds|..] == rest;
  }

  lemma {:induction false} UrlRunConcat(p: string, rest: string)
    requires IsUrlText(p)
    requires rest != "" && !IsUrlChar(rest[0])
    ensures UrlRun(p + rest) == |p|
  {
    if p == [] {
      assert p + rest == rest;
    } else {
      assert (p + rest)[1..] == p[1..] + rest;
      UrlRunConcat(p[1..], rest);
    }
  }

  lemma PayloadConcat(p: string, rest: string)
    requires p != "" && IsUrlText(p)
    ensures Payload(p + ("." + rest)) == Some(p)
  {
    UrlRunConcat(p, "." + rest);
    var s := p + ("." + rest);
    assert s[|p|..] == "." + rest && s[..|p|] == p;
    ExpectConcat(".", rest);
  }

  // The scanner finds every match of the expression.
  lemma MatchComplete(batch: string, part: string, total: string, payload: string, rest: string)
    requires InLanguage(batch, part, total, payload)
    ensures MatchHere(Form(batch, part, total, payload) + rest)
         == Some(ChunkHeader(Value(part), Value(total), payload))
  {
    hide Expect, Number, Payload;
    var s7 := payload + ("." + rest);
    var s6 := ":" + s7;
    var s5 := total + s6;
    var s4 := "/" + s5;
    var s3 := part + s4;
    var s2 := ":c:" + s3;
    var s1 := batch + s2;
    assert Form(batch, part, total, payload) + rest == "b:" + s1;
    ExpectConcat("b:", s1);
    NumberConcat(batch, s2);
    ExpectConcat(":c:", s3);
    NumberConcat(part, s4);
    ExpectConcat("/", s5);
    NumberConcat(total, s6);
    ExpectConcat(":", s7);
    PayloadConcat(payload, rest);
  }

  // What the scanner finds is a match of the expression.
  lemma MatchSound(s: string) returns (batch: string, part: string, total: string, payload: string, rest: string)
    requires MatchHere(s).Some?
    ensures InLanguage(batch, part, total, payload)
    ensures s == Form(batch, part, total, payload) + rest
    ensures MatchHere(s).value == ChunkHeader(Value(part), Value(total), payload)
  {
    hide Expect, Number, Payload;
    var s1 := Expect(s, "b:").value;
    var (b, s2) := Number(s1).value;
    var s3 := Expect(s2, ":c:").value;
    var (p, s4) := Number(s3).value;
    var s5 := Expect(s4, "/").value;
    var (n, s6) := Number(s5).value;
    var s7 := Expect(s6, ":").value;
    batch, part, total, payload := b, p, n, Payload(s7).value;
    rest := s7[|payload| + 1..];
    assert s7 == (payload + ".") + rest;
    FormConcat(batch, part, total, payload, rest);
  }

  lemma FormConcat(batch: string, part: string, total: string, payload: string, rest: string)
    ensures Form(batch, part, total, payload) + rest
         == "b:" + (batch + (":c:" + (part + ("/" + (total + (":" + ((payload + ".") + rest)))))))
  {
  }

  // A text has a match only if it has a dot.
  lemma {:induction false} NoDotNoMatch(s: string)
    requires DOT !in s
    ensures ParseChunkHeader(s) == None
  {
    if MatchHere(s).Some? {
      var batch, part, total, payload, rest := MatchSound(s);
      FormConcat(batch, part, total, payload, rest);
      FormHasDot(batch, part, total, payload);
      assert false;
    } else if s != "" {
      NoDotNoMatch(s[1..]);
    }
  }

  lemma FormHasDot(batch: string, part: string, total: string, payload: string)
    ensures DOT in Form(batch, part, total, payload)
  {
    var f := Form(batch, part, total, payload);
    assert f[|f| - 1] == DOT;
  }

  // A text has a match only if it has a 'b'.
  lemma {:induction false} NoBNoMatch(s: string)
    requires 'b' !in s
    ensures ParseChunkHeader(s) == None
  {
    if s != "" {
      assert s[0] != "b:"[0];
      NoBNoMatch(s[1..]);
    }
  }

  // ---- Server against client ----

  function HeaderText(batch: nat, part: nat, total: nat): string {
    "b:" + Digits(batch) + ":c:" + Digits(part) + "/" + Digits(total) + ":"
  }

  // The total length of the three numbers.
  function DigitCount(batch: nat, part: nat, total: nat): nat {
    |Digits(batch)| + |Digits(part)| + |Digits(total)|
  }

  lemma PartHeaderIs(batch: nat, part: nat, total: nat)
    requires batch <= MAX_INT && part <= MAX_INT && total <= MAX_INT
    ensures PartHeader(batch, part, total) == HeaderText(batch, part, total)
    ensures |HeaderText(batch, part, total)| == 7 + DigitCount(batch, part, total)
  {
  }

  // One text in full.
  lemma TextExample()
    ensures PaddedText(PartHeader(3, 2, 5), "QUJD", 4) == "b:3:c:2/5:QUJD.xxxx"
  {
    assert Repeat('x', 4) == "xxxx";
  }

  lemma FlatForm(batch: string, part: string, total: string, payload: string)
    ensures "b:" + batch + ":c:" + part + "/" + total + ":" + payload + "." == Form(batch, part, total, payload)
  {
  }

  lemma HeaderForm(batch: nat, part: nat, total: nat, payload: string)
    ensures HeaderText(batch, part, total) + payload + "." == Form(Digits(batch), Digits(part), Digits(total), payload)
  {
    hide Form, Digits;
    FlatForm(Digits(batch), Digits(part), Digits(total), payload);
  }

  // An uncut text parses to exactly what was put in, whatever the padding, although
  // the padding letter belongs to the payload class.
  lemma UncutTextParses(batch: nat, part: nat, total: nat, payload: string, rest: string)
    requires payload != "" && IsUrlText(payload)
    ensures ParseChunkHeader(HeaderText(batch, part, total) + payload + "." + rest)
         == Some(ChunkHeader(part, total, payload))
  {
    hide MatchHere;
    HeaderForm(batch, part, total, payload);
    MatchComplete(Digits(batch), Digits(part), Digits(total), payload, rest);
    ValueOfDigits(part);
    ValueOfDigits(total);
  }

  // With an empty payload there is no match: not at the start, and later there is no 'b'.
  lemma EmptyPayloadNoMatch(batch: nat, part: nat, total: nat, padding: nat)
    ensures ParseChunkHeader(HeaderText(batch, part, total) + "." + Repeat('x', padding)) == None
  {
    hide MatchHere;
    var txt := HeaderText(batch, part, total) + "." + Repeat('x', padding);
    EmptyPayloadNotHere(batch, part, total, "." + Repeat('x', padding));
    assert txt == HeaderText(batch, part, total) + ("." + Repeat('x', padding));
    NoBInHeader(batch, part, total);
    assert txt[1..] == HeaderText(batch, part, total)[1..] + "." + Repeat('x', padding);
    NoBNoMatch(txt[1..]);
  }

  lemma EmptyPayloadNotHere(batch: nat, part: nat, total: nat, s7: string)
    requires UrlRun(s7) == 0
    ensures MatchHere(HeaderText(batch, part, total) + s7) == None
  {
    hide Expect, Number, Digits, Value;
    var b, p, n := Digits(batch), Digits(part), Digits(total);
    var s6 := ":" + s7;
    var s5 := n + s6;
    var s4 := "/" + s5;
    var s3 := p + s4;
    var s2 := ":c:" + s3;
    var s1 := b + s2;
    assert HeaderText(batch, part, total) + s7 == "b:" + s1;
    ExpectConcat("b:", s1);
    NumberConcat(b, s2);
    ExpectConcat(":c:", s3);
    NumberConcat(p, s4);
    ExpectConcat("/", s5);
    NumberConcat(n, s6);
    ExpectConcat(":", s7);
  }

  lemma NoBInHeader(batch: nat, part: nat, total: nat)
    ensures 'b' !in HeaderText(batch, part, total)[1..]
  {
    var b, p, n := Digits(batch), Digits(part), Digits(total);
    assert 'b' !in b && 'b' !in p && 'b' !in n;
    assert HeaderText(batch, part, total)[1..] == ":" + b + ":c:" + p + "/" + n + ":";
  }

  // The client reads part, total and chunk off the server's text exactly when the
  // chunk is not empty and the cut at 255 leaves the dot in; otherwise it reads nothing.
  lemma PaddedTextParses(batch: nat, part: nat, total: nat, chunk: string, padding: nat)
    requires IsUrlText(chunk)
    ensures ParseChunkHeader(PaddedText(HeaderText(batch, part, total), chunk, padding))
         == if chunk != "" && DigitCount(batch, part, total) + |chunk| <= 247
            then Some(ChunkHeader(part, total, chunk))
            else None
  {
    hide ParseChunkHeader;
    var head := HeaderText(batch, part, total);
    var whole := head + chunk + ".";
    var txt := PaddedText(head, chunk, padding);
    if DigitCount(batch, part, total) + |chunk| > 247 {
      assert txt == (head + chunk)[..255];
      NoDotInHeader(batch, part, total);
      assert DOT !in txt;
      NoDotNoMatch(txt);
    } else {
      var rest := txt[|whole|..];
      assert txt == whole + rest;
      if chunk == "" {
        assert head + chunk == head;
        assert rest == Repeat('x', |rest|);
        EmptyPayloadNoMatch(batch, part, total, |rest|);
      } else {
        UncutTextParses(batch, part, total, chunk, rest);
      }
    }
  }

  lemma NoDotInHeader(batch: nat, part: nat, total: nat)
    ensures DOT !in HeaderText(batch, part, total)
  {
    assert DOT !in Digits(batch) && DOT !in Digits(part) && DOT !in Digits(total);
  }
}
