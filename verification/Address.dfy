/**
 The address in a query name, `b<batch>.p<part>.msg.<domain>`: written by the client,
 read by the server's `parseBatchIndex` and `parsePartIndex`.
 */
module Address {
  import opened Text
  import opened Decimal
  import opened WireName

  // The prefix of digits of s, as a number wrapped to 64 bits.
  function LeadingNumber(s: string): int64 {
    WrapValue(s[..DigitRun(s)])
  }

  predicate NamesBatch(lbl: string) {
    |lbl| > 1 && lbl[0] == 'b' && IsDigit(lbl[1])
  }

  // The first label that is a 'b' followed by a digit gives the batch; 0 otherwise.
  function BatchIn(labels: seq<string>): int64 {
    if labels == [] then 0
    else if NamesBatch(labels[0]) then LeadingNumber(labels[0][1..])
    else BatchIn(labels[1..])
  }

  predicate NamesPart(lbl: string) {
    |lbl| > 1 && lbl[0] == 'p' && AllDigits(lbl[1..]) && WrapValue(lbl[1..]) >= 1
  }

  // The first label that is a 'p' followed by digits only, of value at least 1, gives
  // the part, counted from 0; 0 otherwise.
  function PartIn(labels: seq<string>): int64 {
    if labels == [] then 0
    else if NamesPart(labels[0]) then WrapValue(labels[0][1..]) - 1
    else PartIn(labels[1..])
  }

  function BatchIndex(qname: string): int64 {
    BatchIn(Split(qname, DOT))
  }

  function PartIndex(qname: string, domain: string): int64 {
    PartIn(Split(TrimSuffix(qname, "." + domain), DOT))
  }

  method ParseBatchIndex(qname: string) returns (n: int64)
    ensures n == BatchIndex(qname)
  {
    hide Split, DigitRun, Wrap64;
    var labels := Split(qname, DOT);
    var j := 0;
    while j < |labels|
      invariant 0 <= j <= |labels|
      invariant BatchIn(labels[j..]) == BatchIndex(qname)
    {
      var lbl := labels[j];
      assert labels[j..][0] == lbl && labels[j..][1..] == labels[j + 1..];
      if HasPrefix(lbl, "b") && |lbl| > 1 {
        assert lbl[..1][0] == lbl[0];
        var val := lbl[1..];
        n := 0;
        var found := false;
        var i := 0;
        while i < |val| && IsDigit(val[i])
          invariant 0 <= i <= |val| && AllDigits(val[..i])
          invariant n == WrapValue(val[..i])
          invariant found <==> i > 0
        {
          assert val[..i + 1][..i] == val[..i];
          n := Wrap64(n * 10 + DigitValue(val[i]));
          found := true;
          i := i + 1;
        }
        DigitRunIs(val, i);
        if found {
          return n;
        }
      }
      j := j + 1;
    }
    n := 0;
  }

  lemma {:induction false} DigitRunIs(s: string, k: nat)
    requires k <= |s| && AllDigits(s[..k])
    requires k < |s| ==> !IsDigit(s[k])
    ensures DigitRun(s) == k
  {
    if k > 0 {
      assert s[1..][..k - 1] == s[..k][1..];
      assert IsDigit(s[..k][0]);
      DigitRunIs(s[1..], k - 1);
    }
  }

  method ParsePartIndex(qname: string, domain: string) returns (r: int64)
    ensures r == PartIndex(qname, domain)
  {
    var trimmed := TrimSuffix(qname, "." + domain);
    var labels := Split(trimmed, DOT);
    var j := 0;
    while j < |labels|
      invariant 0 <= j <= |labels|
      invariant PartIn(labels[j..]) == PartIndex(qname, domain)
    {
      var lbl := labels[j];
      assert labels[j..][0] == lbl && labels[j..][1..] == labels[j + 1..];
      if HasPrefix(lbl, "p") && |lbl| > 1 {
        assert lbl[..1][0] == lbl[0];
        var val := lbl[1..];
        var n: int64 := 0;
        var i := 0;
        while i < |val|
          invariant 0 <= i <= |val|
          invariant AllDigits(val[..i]) && n == WrapValue(val[..i])
        {
          if !IsDigit(val[i]) {
            n := -1;
            break;
          }
          assert val[..i + 1][..i] == val[..i];
          n := Wrap64(n * 10 + DigitValue(val[i]));
          i := i + 1;
        }
        assert i == |val| ==> val[..i] == val;
        if n >= 1 {
          return n - 1;
        }
      }
      j := j + 1;
    }
    r := 0;
  }

  // ---- The client's side ----

  function PartLabels(batch: nat, part: nat): seq<string> {
    ["b" + Digits(batch), "p" + Digits(part), "msg"]
  }

  // `b${batch}.p${part}.msg.${domain}`
  function PartName(batch: nat, part: nat, domain: string): string {
    "b" + Digits(batch) + ".p" + Digits(part) + ".msg." + domain
  }

  // What the server compares: lower case, without a closing dot.
  function Normalize(name: string): string {
    TrimSuffix(Lower(name), ".")
  }

  predicate IsDomain(labels: seq<string>) {
    labels != [] && forall k :: 0 <= k < |labels| ==> IsClientLabel(labels[k])
  }

  lemma LowerDigits(n: nat)
    ensures Lower(Digits(n)) == Digits(n)
  {
    forall i | 0 <= i < |Digits(n)| ensures LowerChar(Digits(n)[i]) == Digits(n)[i] {
      assert IsDigit(Digits(n)[i]);
    }
  }

  lemma LowerPartName(batch: nat, part: nat, domain: string)
    ensures Lower(PartName(batch, part, domain)) == PartName(batch, part, Lower(domain))
  {
    LowerDigits(batch);
    LowerDigits(part);
    var b, p := "b" + Digits(batch), ".p" + Digits(part);
    assert Lower("b") == "b" && Lower(".p") == ".p" && Lower(".msg.") == ".msg.";
    LowerConcat("b", Digits(batch));
    LowerConcat(".p", Digits(part));
    LowerConcat(b, p);
    LowerConcat(b + p, ".msg.");
    LowerConcat(b + p + ".msg.", domain);
    assert PartName(batch, part, domain) == b + p + ".msg." + domain;
    assert PartName(batch, part, Lower(domain)) == b + p + ".msg." + Lower(domain);
  }

  // The last character of a joined name is not a dot.
  lemma {:induction false} DomainEnd(labels: seq<string>)
    requires IsDomain(labels)
    ensures var d := Join(labels, DOT); d != "" && d[|d| - 1] != DOT
  {
    if |labels| == 1 {
      assert labels[0][|labels[0]| - 1] in labels[0];
    } else {
      DomainEnd(labels[1..]);
    }
  }

  lemma JoinThree(a: string, b: string, c: string)
    ensures Join([a, b, c], DOT) == a + "." + b + "." + c
  {
    assert [a, b, c][1..] == [b, c] && [b, c][1..] == [c];
    assert Join([b, c], DOT) == b + "." + c;
  }

  lemma SplitTrimmedName(batch: nat, part: nat)
    ensures Split("b" + Digits(batch) + ".p" + Digits(part) + ".msg", DOT) == PartLabels(batch, part)
  {
    hide Digits, Split, Join;
    NoDotInDigits(batch);
    NoDotInDigits(part);
    JoinThree("b" + Digits(batch), "p" + Digits(part), "msg");
    var a, b := "b" + Digits(batch), "p" + Digits(part);
    assert a + ".p" + Digits(part) + ".msg" == a + "." + b + "." + "msg";
    SplitJoin(PartLabels(batch, part), DOT);
  }

  lemma NoDotInDigits(n: nat)
    ensures DOT !in Digits(n)
  {
    forall i | 0 <= i < |Digits(n)|
      ensures Digits(n)[i] != DOT
    {
      assert IsDigit(Digits(n)[i]);
    }
  }

  lemma BatchOfName(batch: nat, part: nat, domain: string)
    requires batch <= MAX_INT
    ensures BatchIndex(PartName(batch, part, domain)) == batch
  {
    NoDotInDigits(batch);
    var l, rest := "b" + Digits(batch), "p" + Digits(part) + ".msg." + domain;
    assert PartName(batch, part, domain) == l + [DOT] + rest;
    SplitConcat(l, DOT, rest);
    var labels := Split(PartName(batch, part, domain), DOT);
    assert labels[0] == l && l[1..] == Digits(batch) && l[1] == Digits(batch)[0];
    DigitRunIs(Digits(batch), |Digits(batch)|);
    assert Digits(batch)[..|Digits(batch)|] == Digits(batch);
    WrapValueOfDigits(batch);
  }

  lemma PartOfName(batch: nat, part: nat, domain: string)
    requires 1 <= part <= MAX_INT
    ensures PartIndex(PartName(batch, part, domain), domain) == part - 1
  {
    var name := PartName(batch, part, domain);
    var trimmed := "b" + Digits(batch) + ".p" + Digits(part) + ".msg";
    assert name == trimmed + ("." + domain);
    assert name[|trimmed|..] == "." + domain && name[..|trimmed|] == trimmed;
    assert TrimSuffix(name, "." + domain) == trimmed;
    SplitTrimmedName(batch, part);
    WrapValueOfDigits(part);
    SecondNamesPart("b" + Digits(batch), Digits(part), "msg");
  }

  lemma SecondNamesPart(first: string, digits: string, last: string)
    requires first != "" && first[0] != 'p'
    requires digits != "" && AllDigits(digits) && WrapValue(digits) >= 1
    ensures PartIn([first, "p" + digits, last]) == WrapValue(digits) - 1
  {
    var ls := [first, "p" + digits, last];
    assert ls[1][1..] == digits;
    assert ls[1..][0] == ls[1];
  }

  // Whatever letter case the name arrives in, and whether or not the configured domain
  // ends in a dot, the server recognises the domain and reads the client's batch and part.
  lemma AddressAgreement(received: string, batch: nat, part: nat, labels: seq<string>, configured: string)
    requires batch <= MAX_INT && 1 <= part <= MAX_INT
    requires IsDomain(labels) && Normalize(configured) == Lower(Join(labels, DOT))
    requires Lower(received) == Lower(PartName(batch, part, Join(labels, DOT)))
    ensures HasSuffix(Normalize(received), Normalize(configured))
    ensures BatchIndex(Normalize(received)) == batch
    ensures PartIndex(Normalize(received), Normalize(configured)) == part - 1
  {
    var d := Lower(Join(labels, DOT));
    LowerPartName(batch, part, Join(labels, DOT));
    var name := PartName(batch, part, d);
    DomainEnd(labels);
    var head := "b" + Digits(batch) + ".p" + Digits(part) + ".msg.";
    assert name == head + d;
    assert name[|name| - 1] == d[|d| - 1] != DOT;
    assert name[|name| - 1..] != ".";
    assert Normalize(received) == name;
    assert name[|head|..] == d;
    BatchOfName(batch, part, d);
    PartOfName(batch, part, d);
  }

  // ---- Which label decides ----

  predicate IsBatchLabel(l: string) {
    |l| >= 2 && l[0] == 'b' && '0' <= l[1] <= '9'
  }

  // The n characters after the first are all the digits that stand there.
  predicate IsRunAt1(l: string, n: nat) {
    1 <= n < |l| && AllDigits(l[1..n + 1]) && (n + 1 < |l| ==> !IsDigit(l[n + 1]))
  }

  // A batch is read off the first label that is a b before a digit, and is the value of the
  // whole run of digits, cut to 64 bits; without such a label it is 0.
  lemma {:induction false} FirstBatchLabel(labels: seq<string>, k: nat)
    requires k <= |labels| && (forall j :: 0 <= j < k ==> !IsBatchLabel(labels[j]))
    ensures k == |labels| ==> BatchIn(labels) == 0
    ensures k < |labels| && IsBatchLabel(labels[k]) ==>
              exists n: nat :: IsRunAt1(labels[k], n) && BatchIn(labels) == Wrap64(Value(labels[k][1..n + 1]))
  {
    if labels == [] {
    } else if k == 0 {
      if IsBatchLabel(labels[0]) {
        var l := labels[0];
        var n := DigitRun(l[1..]);
        assert l[1..][..n] == l[1..n + 1];
        WrapValueIs(l[1..n + 1]);
        assert n < |l[1..]| ==> l[1..][n] == l[n + 1];
        assert IsRunAt1(l, n);
      }
    } else {
      FirstBatchLabel(labels[1..], k - 1);
    }
  }

  predicate IsPartLabel(l: string) {
    |l| >= 2 && l[0] == 'p' && AllDigits(l[1..]) && Wrap64(Value(l[1..])) >= 1
  }

  // A part is read off the first label that is a p before digits only, of positive value
  // after the cut to 64 bits, and counted from 0; without such a label it is the first.
  lemma {:induction false} FirstPartLabel(labels: seq<string>, k: nat)
    requires k <= |labels| && (forall j :: 0 <= j < k ==> !IsPartLabel(labels[j]))
    ensures k == |labels| ==> PartIn(labels) == 0
    ensures k < |labels| && IsPartLabel(labels[k]) ==> PartIn(labels) == Wrap64(Value(labels[k][1..])) - 1
  {
    if labels == [] {
    } else {
      if |labels[0]| >= 2 && AllDigits(labels[0][1..]) {
        WrapValueIs(labels[0][1..]);
      }
      if k > 0 {
        FirstPartLabel(labels[1..], k - 1);
      }
    }
  }
}
