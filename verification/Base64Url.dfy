/**
 Base64url without padding (section 5 of RFC 4648): the server's
 `base64.RawURLEncoding` and the client's `b64urlToBytes`, which translates to the
 standard alphabet, restores the padding and calls the browser's `atob`.
 */
module Base64Url {
  import opened Wrappers
  import opened Text

  type sextet = x: int | 0 <= x < 64

  // The 64 characters of the URL-safe alphabet, in order.
  function UrlChar(x: sextet): char {
    if x < 26 then ('A' as int + x) as char
    else if x < 52 then ('a' as int + (x - 26)) as char
    else if x < 62 then ('0' as int + (x - 52)) as char
    else if x == 62 then '-' else '_'
  }

  predicate IsUrlChar(c: char) {
    'A' <= c <= 'Z' || 'a' <= c <= 'z' || '0' <= c <= '9' || c == '-' || c == '_'
  }

  predicate IsUrlText(s: string) {
    forall i :: 0 <= i < |s| ==> IsUrlChar(s[i])
  }

  // The sextet of a character of the standard alphabet, if it is one.
  function StdSextet(c: char): Option<sextet> {
    if 'A' <= c <= 'Z' then Some(c as int - 'A' as int)
    else if 'a' <= c <= 'z' then Some(c as int - 'a' as int + 26)
    else if '0' <= c <= '9' then Some(c as int - '0' as int + 52)
    else if c == '+' then Some(62)
    else if c == '/' then Some(63)
    else None
  }

  // The four sextets that three consecutive bytes fill.
  function Sextet0(a: int): sextet
    requires 0 <= a < 256
  {
    a / 4
  }

  function Sextet1(a: int, b: int): sextet
    requires 0 <= a < 256 && 0 <= b < 256
  {
    a % 4 * 16 + b / 16
  }

  function Sextet2(b: int, c: int): sextet
    requires 0 <= b < 256 && 0 <= c < 256
  {
    b % 16 * 4 + c / 64
  }

  function Sextet3(c: int): sextet
    requires 0 <= c < 256
  {
    c % 64
  }

  // Three bytes become four sextets; one or two left over become two or three,
  // filled up with zero bits.
  function EncodeSextets(b: seq<byte>): seq<sextet> {
    if |b| == 0 then []
    else if |b| == 1 then [Sextet0(b[0]), Sextet1(b[0], 0)]
    else if |b| == 2 then [Sextet0(b[0]), Sextet1(b[0], b[1]), Sextet2(b[1], 0)]
    else [Sextet0(b[0]), Sextet1(b[0], b[1]), Sextet2(b[1], b[2]), Sextet3(b[2])] + EncodeSextets(b[3..])
  }

  function UrlChars(xs: seq<sextet>): (s: string)
    ensures |s| == |xs|
  {
    seq(|xs|, i requires 0 <= i < |xs| => UrlChar(xs[i]))
  }

  function Encode(b: seq<byte>): string {
    UrlChars(EncodeSextets(b))
  }

  // The three bytes that four consecutive sextets carry.
  function Byte0(x: int, y: int): byte
    requires 0 <= x < 64 && 0 <= y < 64
  {
    x * 4 + y / 16
  }

  function Byte1(y: int, z: int): byte
    requires 0 <= y < 64 && 0 <= z < 64
  {
    y % 16 * 16 + z / 4
  }

  function Byte2(z: int, w: int): byte
    requires 0 <= z < 64 && 0 <= w < 64
  {
    z % 4 * 64 + w
  }

  // The bytes of a group of sextets; left-over bits of a short last group are dropped.
  function DecodeSextets(xs: seq<sextet>): seq<byte> {
    if |xs| <= 1 then []
    else if |xs| == 2 then [Byte0(xs[0], xs[1])]
    else if |xs| == 3 then [Byte0(xs[0], xs[1]), Byte1(xs[1], xs[2])]
    else [Byte0(xs[0], xs[1]), Byte1(xs[1], xs[2]), Byte2(xs[2], xs[3])] + DecodeSextets(xs[4..])
  }

  predicate IsAsciiSpace(c: char) {
    c == '\t' || c == '\n' || c == 0x0C as char || c == '\r' || c == ' '
  }

  function RemoveSpaces(s: string): string {
    if s == [] then []
    else if IsAsciiSpace(s[0]) then RemoveSpaces(s[1..])
    else [s[0]] + RemoveSpaces(s[1..])
  }

  function StdSextets(s: string): Option<seq<sextet>> {
    if s == [] then Some([])
    else
      match (StdSextet(s[0]), StdSextets(s[1..]))
      case (Some(x), Some(xs)) => Some([x] + xs)
      case _ => None
  }

  function StripPadding(s: string): string {
    if |s| % 4 != 0 then s
    else if HasSuffix(s, "==") then s[..|s| - 2]
    else if HasSuffix(s, "=") then s[..|s| - 1]
    else s
  }

  // The browser's `atob`: the forgiving-base64 decode of the WHATWG Infra Standard.
  function Atob(input: string): (raw: Option<string>)
    ensures raw.Some? ==> IsByteText(raw.value)
  {
    var data := StripPadding(RemoveSpaces(input));
    if |data| % 4 == 1 then None
    else
      match StdSextets(data)
      case Some(xs) => Some(ToText(DecodeSextets(xs)))
      case None => None
  }

  // "===".slice((length + 3) % 4)
  function PaddingFor(length: nat): string {
    "==="[(length + 3) % 4..]
  }

  function ToStdChar(c: char): char {
    if c == '-' then '+' else if c == '_' then '/' else c
  }

  function ToStd(s: string): (r: string)
    ensures |r| == |s|
  {
    seq(|s|, i requires 0 <= i < |s| => ToStdChar(s[i]))
  }

  function Decode(input: string): Option<seq<byte>> {
    match Atob(ToStd(input) + PaddingFor(|input|))
    case Some(raw) => Some(ToBytes(raw))
    case None => None
  }

  /** The client's decoder; a failing `atob` throws, which is None here. */
  method B64UrlToBytes(input: string) returns (out: Option<seq<byte>>)
    ensures out == Decode(input)
  {
    hide Atob, ToStd, PaddingFor;
    var padded := ToStd(input) + PaddingFor(|input|);
    var raw := Atob(padded);
    if raw.None? {
      return None;
    }
    var bytes := new byte[|raw.value|];
    var i := 0;
    while i < |raw.value|
      invariant 0 <= i <= |raw.value|
      invariant forall k :: 0 <= k < i ==> bytes[k] == raw.value[k] as int
    {
      bytes[i] := raw.value[i] as int;
      i := i + 1;
    }
    out := Some(bytes[..]);
    assert bytes[..] == ToBytes(raw.value);
  }

  // ---- The encoding itself ----

  const ALPHABET := UPPER + LOWER + "0123456789" + "-_"

  // Table 2 of RFC 4648.
  lemma AlphabetIs(x: sextet)
    ensures |ALPHABET| == 64 && UrlChar(x) == ALPHABET[x]
  {
    assert forall k :: 0 <= k < 26 ==> UPPER[k] == ('A' as int + k) as char;
    assert forall k :: 0 <= k < 26 ==> LOWER[k] == ('a' as int + k) as char;
    assert forall k :: 0 <= k < 10 ==> "0123456789"[k] == ('0' as int + k) as char;
    assert "-_"[0] == '-' && "-_"[1] == '_';
  }

  // The number that four sextets make, the highest first.
  function Number24(x: int, y: int, z: int, w: int): int {
    ((x * 64 + y) * 64 + z) * 64 + w
  }

  // Three bytes and their four sextets are one number of 24 bits.
  lemma GroupIsNumber(a: byte, b: byte, c: byte, rest: seq<byte>)
    ensures var xs := EncodeSextets([a, b, c] + rest);
      |xs| >= 4 && xs[4..] == EncodeSextets(rest)
      && a * 0x1_0000 + b * 0x100 + c == Number24(xs[0], xs[1], xs[2], xs[3])
  {
    EncodeGroup(a, b, c, rest);
    GroupNumber(a, b, c);
    hide Sextet0, Sextet1, Sextet2, Sextet3, EncodeSextets, Number24;
  }

  lemma GroupNumber(a: byte, b: byte, c: byte)
    ensures a * 0x1_0000 + b * 0x100 + c
         == Number24(Sextet0(a), Sextet1(a, b), Sextet2(b, c), Sextet3(c))
  {
  }

  // The first examples of section 10 of RFC 4648, without padding.
  lemma EncodeExamples()
    ensures Encode([]) == "" && Encode([0x66]) == "Zg" && Encode([0x66, 0x6F]) == "Zm8"
    ensures Encode([0x66, 0x6F, 0x6F]) == "Zm9v"
  {
    var foo: seq<byte> := [0x66, 0x6F, 0x6F];
    assert foo[3..] == [];
  }

  // ---- The round trip ----

  lemma ByteBits(a: byte, b: byte, c: byte)
    ensures var (x, y, z, w) := (Sextet0(a), Sextet1(a, b), Sextet2(b, c), Sextet3(c));
      Byte0(x, y) == a && Byte1(y, z) == b && Byte2(z, w) == c
  {
  }

  lemma DecodeGroup(x: sextet, y: sextet, z: sextet, w: sextet, rest: seq<sextet>)
    ensures DecodeSextets([x, y, z, w] + rest) == [Byte0(x, y), Byte1(y, z), Byte2(z, w)] + DecodeSextets(rest)
  {
    hide Byte0, Byte1, Byte2;
    assert ([x, y, z, w] + rest)[4..] == rest;
  }

  lemma {:induction false} SextetsRoundTrip(b: seq<byte>)
    ensures DecodeSextets(EncodeSextets(b)) == b
  {
    hide Sextet0, Sextet1, Sextet2, Sextet3, Byte0, Byte1, Byte2;
    if |b| == 1 {
      ByteBits(b[0], 0, 0);
    } else if |b| == 2 {
      ByteBits(b[0], b[1], 0);
    } else if |b| >= 3 {
      SextetsRoundTrip(b[3..]);
      ByteBits(b[0], b[1], b[2]);
      DecodeGroup(Sextet0(b[0]), Sextet1(b[0], b[1]), Sextet2(b[1], b[2]), Sextet3(b[2]), EncodeSextets(b[3..]));
    }
  }

  // The dropped bits of the last group, which a canonical encoding leaves zero.
  predicate CanonicalTail(xs: seq<sextet>) {
    (|xs| % 4 == 2 ==> xs[|xs| - 1] % 16 == 0) && (|xs| % 4 == 3 ==> xs[|xs| - 1] % 4 == 0)
  }

  lemma GroupBits(x: sextet, y: sextet, z: sextet, w: sextet)
    ensures var (a, b, c) := (Byte0(x, y), Byte1(y, z), Byte2(z, w));
      Sextet0(a) == x && Sextet1(a, b) == y && Sextet2(b, c) == z && Sextet3(c) == w
  {
  }

  lemma EncodeGroup(a: byte, b: byte, c: byte, rest: seq<byte>)
    ensures EncodeSextets([a, b, c] + rest)
      == [Sextet0(a), Sextet1(a, b), Sextet2(b, c), Sextet3(c)] + EncodeSextets(rest)
  {
    hide Sextet0, Sextet1, Sextet2, Sextet3;
    assert ([a, b, c] + rest)[3..] == rest;
  }

  lemma GroupRoundTrip(x: sextet, y: sextet, z: sextet, w: sextet, rest: seq<sextet>)
    ensures EncodeSextets(DecodeSextets([x, y, z, w] + rest))
      == [x, y, z, w] + EncodeSextets(DecodeSextets(rest))
  {
    hide *;
    DecodeGroup(x, y, z, w, rest);
    EncodeGroup(Byte0(x, y), Byte1(y, z), Byte2(z, w), DecodeSextets(rest));
    GroupBits(x, y, z, w);
  }

  lemma ShortGroupBits(x: sextet, y: sextet, z: sextet)
    ensures Sextet0(Byte0(x, y)) == x
    ensures Sextet1(Byte0(x, y), 0) == y <==> y % 16 == 0
    ensures Sextet1(Byte0(x, y), Byte1(y, z)) == y
    ensures Sextet2(Byte1(y, z), 0) == z <==> z % 4 == 0
  {
  }

  lemma TwoCanonical(x: sextet, y: sextet)
    ensures EncodeSextets(DecodeSextets([x, y])) == [x, y] <==> y % 16 == 0
  {
    hide Sextet0, Sextet1, Byte0;
    ShortGroupBits(x, y, 0);
    assert DecodeSextets([x, y]) == [Byte0(x, y)];
    assert EncodeSextets([Byte0(x, y)]) == [Sextet0(Byte0(x, y)), Sextet1(Byte0(x, y), 0)];
  }

  lemma ThreeCanonical(x: sextet, y: sextet, z: sextet)
    ensures EncodeSextets(DecodeSextets([x, y, z])) == [x, y, z] <==> z % 4 == 0
  {
    hide Sextet0, Sextet1, Sextet2, Byte0, Byte1;
    var (a, b) := (Byte0(x, y), Byte1(y, z));
    ShortGroupBits(x, y, z);
    assert DecodeSextets([x, y, z]) == [a, b];
    assert EncodeSextets([a, b]) == [Sextet0(a), Sextet1(a, b), Sextet2(b, 0)];
  }

  lemma ShortGroupCanonical(xs: seq<sextet>)
    requires |xs| < 4 && |xs| != 1
    ensures EncodeSextets(DecodeSextets(xs)) == xs <==> CanonicalTail(xs)
  {
    hide EncodeSextets, DecodeSextets;
    if |xs| == 0 {
      NoneCanonical();
    } else if |xs| == 2 {
      assert xs == [xs[0], xs[1]];
      TwoCanonical(xs[0], xs[1]);
    } else {
      assert xs == [xs[0], xs[1], xs[2]];
      ThreeCanonical(xs[0], xs[1], xs[2]);
    }
  }

  lemma NoneCanonical()
    ensures EncodeSextets(DecodeSextets([])) == []
  {
  }

  lemma SamePrefix(group: seq<sextet>, s: seq<sextet>, t: seq<sextet>)
    ensures group + s == group + t <==> s == t
  {
    if group + s == group + t {
      assert s == (group + s)[|group|..];
    }
  }

  lemma CanonicalTailOfRest(xs: seq<sextet>)
    requires |xs| >= 4 && |xs| % 4 != 1
    ensures CanonicalTail(xs) <==> CanonicalTail(xs[4..])
  {
    assert |xs| % 4 == |xs[4..]| % 4;
  }

  lemma {:induction false} SextetsCanonical(xs: seq<sextet>)
    requires |xs| % 4 != 1
    ensures EncodeSextets(DecodeSextets(xs)) == xs <==> CanonicalTail(xs)
  {
    if |xs| >= 4 {
      hide EncodeSextets, DecodeSextets, CanonicalTail;
      var group, rest := [xs[0], xs[1], xs[2], xs[3]], xs[4..];
      assert xs == group + rest;
      SextetsCanonical(rest);
      GroupRoundTrip(xs[0], xs[1], xs[2], xs[3], rest);
      SamePrefix(group, EncodeSextets(DecodeSextets(rest)), rest);
      CanonicalTailOfRest(xs);
    } else {
      ShortGroupCanonical(xs);
    }
  }

  // The url character and the standard character of a sextet denote the same sextet.
  lemma UrlCharIsStd(x: sextet)
    ensures IsUrlChar(UrlChar(x)) && StdSextet(ToStdChar(UrlChar(x))) == Some(x)
  {
  }

  // The sextets of a text over the url alphabet.
  function UrlSextet(c: char): sextet
    requires IsUrlChar(c)
  {
    StdSextet(ToStdChar(c)).value
  }

  function UrlSextets(s: string): (xs: seq<sextet>)
    requires IsUrlText(s)
    ensures |xs| == |s|
  {
    seq<sextet>(|s|, i requires 0 <= i < |s| => UrlSextet(s[i]))
  }

  lemma UrlCharsOfSextets(s: string)
    requires IsUrlText(s)
    ensures UrlChars(UrlSextets(s)) == s
  {
  }

  lemma SextetsOfUrlChars(xs: seq<sextet>)
    ensures IsUrlText(UrlChars(xs)) && UrlSextets(UrlChars(xs)) == xs
  {
    forall i | 0 <= i < |xs| ensures StdSextet(ToStdChar(UrlChar(xs[i]))) == Some(xs[i]) {
      UrlCharIsStd(xs[i]);
    }
  }

  lemma {:induction false} StdSextetsOfUrlText(s: string)
    requires IsUrlText(s)
    ensures StdSextets(ToStd(s)) == Some(UrlSextets(s))
    ensures RemoveSpaces(ToStd(s)) == ToStd(s)
  {
    if s != [] {
      assert IsUrlText(s[1..]);
      StdSextetsOfUrlText(s[1..]);
      assert ToStd(s)[1..] == ToStd(s[1..]);
      assert UrlSextets(s) == [UrlSextet(s[0])] + UrlSextets(s[1..]);
      assert ToStd(s) == [ToStdChar(s[0])] + ToStd(s[1..]);
    }
  }

  lemma {:induction false} RemoveSpacesConcat(s: string, t: string)
    ensures RemoveSpaces(s + t) == RemoveSpaces(s) + RemoveSpaces(t)
  {
    if s == [] {
      assert s + t == t;
    } else {
      assert (s + t)[1..] == s[1..] + t;
      RemoveSpacesConcat(s[1..], t);
    }
  }

  lemma PaddingHasNoSpaces(length: nat)
    ensures RemoveSpaces(PaddingFor(length)) == PaddingFor(length)
  {
    assert RemoveSpaces("===") == "===";
    assert RemoveSpaces("==") == "==";
    assert RemoveSpaces("=") == "=";
    assert PaddingFor(length) == "" || PaddingFor(length) == "=" || PaddingFor(length) == "==" || PaddingFor(length) == "===";
  }

  lemma {:induction false} EqualsSignIsNotStd(s: string)
    requires '=' in s
    ensures StdSextets(s) == None
  {
    if s[0] != '=' {
      EqualsSignIsNotStd(s[1..]);
    }
  }

  // Every length but 1 modulo 4 is brought to a multiple of 4 by padding that
  // `atob` strips again; for 1 modulo 4 a sign is left over.
  lemma PaddingIsStripped(s: string)
    requires IsUrlText(s)
    ensures |s| % 4 != 1 ==> |ToStd(s) + PaddingFor(|s|)| % 4 == 0
    ensures |s| % 4 != 1 ==> StripPadding(ToStd(s) + PaddingFor(|s|)) == ToStd(s)
    ensures |s| % 4 == 1 ==> StripPadding(ToStd(s) + PaddingFor(|s|)) == ToStd(s) + "="
  {
    hide StripPadding, PaddingFor;
    var std := ToStd(s);
    forall i | 0 <= i < |std| ensures std[i] != '=' {
      assert IsUrlChar(s[i]);
    }
    PaddingLengths(|s|);
    StripSigns(std, PaddingFor(|s|));
  }

  lemma TailsOfThree()
    ensures "==="[0..] == "===" && "==="[1..] == "==" && "==="[2..] == "=" && "==="[3..] == ""
  {
  }

  lemma PaddingLengths(length: nat)
    ensures length % 4 == 0 ==> PaddingFor(length) == ""
    ensures length % 4 == 1 ==> PaddingFor(length) == "==="
    ensures length % 4 == 2 ==> PaddingFor(length) == "=="
    ensures length % 4 == 3 ==> PaddingFor(length) == "="
  {
    TailsOfThree();
    var signs := "===";
    var k := (length + 3) % 4;
    assert PaddingFor(length) == signs[k..];
    assert k == 0 || k == 1 || k == 2 || k == 3;
  }

  lemma StripSigns(data: string, signs: string)
    requires forall i :: 0 <= i < |data| ==> data[i] != '='
    requires signs == "" || signs == "=" || signs == "==" || signs == "==="
    requires |data + signs| % 4 == 0
    ensures StripPadding(data + signs) == if signs == "===" then data + "=" else data
  {
    var w := data + signs;
    if signs == "" {
      assert w == data;
      if w != "" { assert w[|w| - 1] != '='; }
    } else {
      assert w[|w| - 1..] == "=";
      if signs == "=" {
        assert w[|w| - 2..][0] != '=';
      } else {
        assert w[|w| - 2..] == "==";
        assert w[..|w| - 2] == data + signs[2..];
      }
    }
  }

  // What the client decodes from a text over the url alphabet, for every length.
  lemma DecodeUrlText(s: string)
    requires IsUrlText(s)
    ensures Decode(s) == if |s| % 4 == 1 then None else Some(DecodeSextets(UrlSextets(s)))
  {
    var w := ToStd(s) + PaddingFor(|s|);
    StdSextetsOfUrlText(s);
    PaddingHasNoSpaces(|s|);
    RemoveSpacesConcat(ToStd(s), PaddingFor(|s|));
    assert RemoveSpaces(w) == w;
    PaddingIsStripped(s);
    if |s| % 4 == 1 {
      var data := ToStd(s) + "=";
      assert data[|s|] == '=';
      EqualsSignIsNotStd(data);
    } else {
      BytesOfText(DecodeSextets(UrlSextets(s)));
    }
  }

  lemma {:induction false} EncodeLength(b: seq<byte>)
    ensures |Encode(b)| == (|b| * 4 + 2) / 3
  {
    hide Sextet0, Sextet1, Sextet2, Sextet3;
    if |b| >= 3 {
      EncodeLength(b[3..]);
    }
  }

  lemma {:induction false} EncodedLengthIsDecodable(b: seq<byte>)
    ensures |EncodeSextets(b)| % 4 != 1
  {
    hide Sextet0, Sextet1, Sextet2, Sextet3;
    if |b| >= 3 {
      EncodedLengthIsDecodable(b[3..]);
      assert |EncodeSextets(b)| == 4 + |EncodeSextets(b[3..])|;
    }
  }

  // The client's decoder inverts the server's encoder on every byte string.
  lemma DecodeEncode(b: seq<byte>)
    ensures IsUrlText(Encode(b))
    ensures Decode(Encode(b)) == Some(b)
  {
    hide Decode, EncodeSextets, DecodeSextets;
    EncodedLengthIsDecodable(b);
    SextetsOfUrlChars(EncodeSextets(b));
    SextetsRoundTrip(b);
    DecodeUrlText(Encode(b));
  }

  // A text over the alphabet decodes exactly when its length is not 1 modulo 4, and
  // is the encoding of what it decodes to exactly when its dropped bits are zero.
  lemma EncodeDecode(s: string)
    requires IsUrlText(s)
    ensures Decode(s).Some? <==> |s| % 4 != 1
    ensures |s| % 4 != 1 ==> (Encode(Decode(s).value) == s <==> CanonicalTail(UrlSextets(s)))
  {
    DecodeUrlText(s);
    if |s| % 4 != 1 {
      var xs := UrlSextets(s);
      SextetsCanonical(xs);
      UrlCharsOfSextets(s);
      SextetsOfUrlChars(EncodeSextets(DecodeSextets(xs)));
    }
  }
}
