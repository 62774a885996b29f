/**
 The path of the keys, from the master key string to the plain feed: the feed server's
 `ParseKey32` and `encryptAESGCM`, the token server's `issueSessionEnvelope`, and the
 client's `decryptSessionEnvelope` and `decryptFeedCiphertext`.

 The cryptographic functions, the deflate format and the UTF-8 conversions are
 parameters; only the laws of IsIdeal are known of them.
 */
module KeyPath {
  import opened Wrappers
  import opened Text
  import Base64Url
  import WireName

  type bytes = seq<byte>

  const BAR := '|'
  const BYTE_ORDER_MARK := 0xFEFF as char
  const NEXT_LINE := 0x85 as char
  const KDF_ITERATIONS := 120000

  datatype Primitives = Primitives(
    seal: (bytes, bytes, bytes) -> bytes,              // AES-GCM: key, nonce, plaintext
    unseal: (bytes, bytes, bytes) -> Option<bytes>,    // key, nonce, ciphertext
    stretch: (bytes, bytes, nat) -> bytes,             // PBKDF2: password, salt, iterations
    digest: bytes -> bytes,                            // SHA-256
    deflate: bytes -> bytes,
    inflate: bytes -> Option<bytes>,
    utf8: string -> bytes,
    text: bytes -> string,                             // the browser's TextDecoder
    std: string -> Option<bytes>,                      // base64, with padding
    rawStd: string -> Option<bytes>,                   // base64, without
    hex: string -> Option<bytes>)
  {
    // Sealing is undone by the same key and by no other, and never empty; a digest has
    // 32 bytes; inflating undoes deflating; UTF-8 is read back, but for a leading mark.
    ghost predicate IsIdeal() {
      && (forall k, n, x :: unseal(k, n, seal(k, n, x)) == Some(x))
      && (forall j, k, n, x :: j != k ==> unseal(j, n, seal(k, n, x)).None?)
      && (forall k, n, x :: seal(k, n, x) != [])
      && (forall x :: |digest(x)| == 32)
      && (forall x :: inflate(deflate(x)) == Some(x))
      && (forall s :: text(utf8(s)) == WithoutMark(s))
      && (forall s, t :: utf8(s) == utf8(t) ==> s == t)
    }
  }

  function WithoutMark(s: string): string {
    if s != "" && s[0] == BYTE_ORDER_MARK then s[1..] else s
  }

  // The characters Go's `TrimSpace` takes for white space.
  predicate IsGoSpace(c: char) {
    var x := c as int;
    9 <= x <= 13 || x == 32 || x == 0x85 || x == 0xA0 || x == 0x1680 || 0x2000 <= x <= 0x200A
    || x == 0x2028 || x == 0x2029 || x == 0x202F || x == 0x205F || x == 0x3000
  }

  function TrimSpace(s: string): string
    decreases |s|
  {
    if s != "" && IsGoSpace(s[0]) then TrimSpace(s[1..])
    else if s != "" && IsGoSpace(s[|s| - 1]) then TrimSpace(s[..|s| - 1])
    else s
  }

  // ---- The servers ----

  // The first of the three decoders that makes 32 bytes of the string.
  function Decoded32(p: Primitives, s: string): Option<bytes> {
    var a, b, c := p.std(s), p.rawStd(s), p.hex(s);
    if a.Some? && |a.value| == 32 then a
    else if b.Some? && |b.value| == 32 then b
    else if c.Some? && |c.value| == 32 then c
    else None
  }

  // The key, or None for an empty string: the server does not start.
  function ParseKey32(p: Primitives, input: string): Option<bytes> {
    var s := TrimSpace(input);
    if s == "" then None
    else
      match Decoded32(p, s)
      case Some(key) => Some(key)
      case None => Some(p.digest(p.utf8(s)))
  }

  // The nonce in front of the sealed text; None for a key of no AES length.
  function Framed(p: Primitives, key: bytes, nonce: bytes, plaintext: bytes): Option<bytes> {
    if |key| == 16 || |key| == 24 || |key| == 32 then Some(nonce + p.seal(key, nonce, plaintext)) else None
  }

  function Nonce(draws: nat -> byte): (nonce: bytes)
    ensures |nonce| == 12
  {
    seq(12, i requires 0 <= i => draws(i))
  }

  /** `encryptAESGCM`: one random draw for each byte of the nonce. */
  method EncryptAESGCM(p: Primitives, key: bytes, plaintext: bytes, draws: nat -> byte) returns (out: Option<bytes>)
    ensures out == Framed(p, key, Nonce(draws), plaintext)
  {
    if |key| != 16 && |key| != 24 && |key| != 32 {
      return None;
    }
    var nonce := new byte[12](i => 0);
    for i := 0 to nonce.Length
      invariant forall k :: 0 <= k < i ==> nonce[k] == draws(k)
    {
      nonce[i] := draws(i);
    }
    assert nonce[..] == Nonce(draws);
    return Some(nonce[..] + p.seal(key, nonce[..], plaintext));
  }

  // A batch as the feed server encrypts it; without a key there is no server.
  function SealedBatch(p: Primitives, master: string, nonce: bytes, json: string): Option<bytes> {
    match ParseKey32(p, master)
    case None => None
    case Some(key) => Framed(p, key, nonce, p.deflate(p.utf8(json)))
  }

  datatype Envelope = Envelope(sealed: string, iv: string, salt: string, iterations: nat)

  // `issueSessionEnvelope`
  function Issue(p: Primitives, token: string, master: string, salt: bytes, iv: bytes, expires: string): Envelope {
    var key := p.stretch(p.utf8(token), salt, KDF_ITERATIONS);
    Envelope(Base64Url.Encode(p.seal(key, iv, p.utf8(master + [BAR] + expires))),
             Base64Url.Encode(iv), Base64Url.Encode(salt), KDF_ITERATIONS)
  }

  // ---- The client ----

  // `decryptSessionEnvelope`: the session key and its expiry.
  function Unwrap(p: Primitives, token: string, e: Envelope): Option<(string, string)> {
    match (Base64Url.Decode(e.salt), Base64Url.Decode(e.iv), Base64Url.Decode(e.sealed))
    case (Some(salt), Some(iv), Some(sealed)) =>
      (match p.unseal(p.stretch(p.utf8(token), salt, e.iterations), iv, sealed)
       case None => None
       case Some(clear) =>
         var pieces := Split(p.text(clear), BAR);
         Some((pieces[0], if |pieces| > 1 then pieces[1] else "")))
    case _ => None
  }

  // `decryptFeedCiphertext`
  function DecryptFeed(p: Primitives, ciphertext: string, sessionKey: string): Option<string> {
    match Base64Url.Decode(ciphertext)
    case None => None
    case Some(raw) =>
      if |raw| < 13 then None
      else
        match p.unseal(p.digest(p.utf8(sessionKey)), raw[..12], raw[12..])
        case None => None
        case Some(clear) =>
          match p.inflate(clear)
          case None => None
          case Some(inflated) => Some(p.text(inflated))
  }

  // Everything that is drawn or read off a clock on the way.
  datatype Draws = Draws(salt: bytes, iv: bytes, nonce: bytes, expires: string)

  // What the client makes of a ciphertext with a token as it was typed: the client trims
  // the token the browser's way, the token server trims it again, its own way.
  function Opened(p: Primitives, master: string, typed: string, d: Draws, ciphertext: string): Option<string> {
    var token := WireName.Trim(typed);
    if TrimSpace(token) == "" then None
    else
      match Unwrap(p, token, Issue(p, TrimSpace(token), master, d.salt, d.iv, d.expires))
      case None => None
      case Some((key, _)) => DecryptFeed(p, ciphertext, key)
  }

  // ---- Trimming ----

  lemma {:induction false} TrimSpaceKeeps(s: string, c: char)
    requires !IsGoSpace(c)
    ensures c in TrimSpace(s) <==> c in s
    decreases |s|
  {
    if s != "" && IsGoSpace(s[0]) {
      assert s == [s[0]] + s[1..];
      TrimSpaceKeeps(s[1..], c);
    } else if s != "" && IsGoSpace(s[|s| - 1]) {
      assert s == s[..|s| - 1] + [s[|s| - 1]];
      TrimSpaceKeeps(s[..|s| - 1], c);
    }
  }

  predicate IsTrimmed(s: string) {
    s != "" ==> !IsGoSpace(s[0]) && !IsGoSpace(s[|s| - 1])
  }

  lemma {:induction false} TrimSpaceShortens(s: string)
    ensures |TrimSpace(s)| <= |s|
    ensures TrimSpace(s) == s <==> IsTrimmed(s)
    decreases |s|
  {
    if s != "" && IsGoSpace(s[0]) {
      TrimSpaceShortens(s[1..]);
    } else if s != "" && IsGoSpace(s[|s| - 1]) {
      TrimSpaceShortens(s[..|s| - 1]);
    }
  }

  // Without white space in front, what is left is a prefix.
  lemma {:induction false} TrimSpacePrefix(s: string)
    requires s != "" && !IsGoSpace(s[0])
    ensures TrimSpace(s) != "" && TrimSpace(s) <= s
    ensures |TrimSpace(s)| < |s| ==> IsGoSpace(s[|s| - 1])
    decreases |s|
  {
    if IsGoSpace(s[|s| - 1]) {
      TrimSpacePrefix(s[..|s| - 1]);
    }
  }

  lemma {:induction false} BrowserTrimEnds(s: string)
    ensures var t := WireName.Trim(s); t != "" ==> !WireName.IsSpace(t[0]) && !WireName.IsSpace(t[|t| - 1])
    decreases |s|
  {
    if s != "" && WireName.IsSpace(s[0]) {
      BrowserTrimEnds(s[1..]);
    } else if s != "" && WireName.IsSpace(s[|s| - 1]) {
      BrowserTrimEnds(s[..|s| - 1]);
    }
  }

  // The one character at the end of a token that the browser keeps and the server drops.
  predicate IsSameToken(typed: string) {
    var t := WireName.Trim(typed);
    t != "" && t[0] != NEXT_LINE && t[|t| - 1] != NEXT_LINE
  }

  lemma TokensAgree(typed: string)
    ensures var t := WireName.Trim(typed);
      t != "" && TrimSpace(t) == t <==> IsSameToken(typed)
  {
    BrowserTrimEnds(typed);
    TrimSpaceShortens(WireName.Trim(typed));
  }

  // ---- The session key ----

  // The client's key text, whatever the expiry.
  function ClientKey(master: string): string {
    Split(WithoutMark(master), BAR)[0]
  }

  lemma {:induction false} IndexOfPrefix(s: string, c: char, t: string)
    requires c in s
    ensures IndexOf(s + t, c) == IndexOf(s, c)
  {
    if s[0] != c {
      assert (s + t)[1..] == s[1..] + t;
      IndexOfPrefix(s[1..], c, t);
    }
  }

  lemma FirstPiece(s: string, t: string)
    ensures Split(s + [BAR] + t, BAR)[0] == Split(s, BAR)[0]
  {
    if BAR in s {
      IndexOfPrefix(s, BAR, [BAR] + t);
      assert s + [BAR] + t == s + ([BAR] + t);
      assert (s + ([BAR] + t))[..IndexOf(s, BAR)] == s[..IndexOf(s, BAR)];
    } else {
      SplitConcat(s, BAR, t);
    }
  }

  lemma EnvelopeKey(master: string, expires: string)
    ensures Split(WithoutMark(master + [BAR] + expires), BAR)[0] == ClientKey(master)
  {
    FirstPiece(WithoutMark(master), expires);
    if master != "" && master[0] == BYTE_ORDER_MARK {
      assert (master + [BAR] + expires)[1..] == master[1..] + [BAR] + expires;
    }
  }

  // A master string that both ends take as it stands.
  predicate IsPlain(master: string) {
    BAR !in master && IsTrimmed(master) && (master != "" ==> master[0] != BYTE_ORDER_MARK)
  }

  lemma ClientKeyHasNoBar(master: string)
    ensures BAR !in ClientKey(master)
    ensures BAR !in master ==> ClientKey(master) == WithoutMark(master)
  {
  }

  lemma {:induction false} Constant(s: string, i: nat)
    requires i < |s| && s[1..] == s[..|s| - 1]
    ensures s[i] == s[0]
  {
    if i > 0 {
      assert s[i] == s[1..][i - 1] == s[..|s| - 1][i - 1] == s[i - 1];
      Constant(s, i - 1);
    }
  }

  // The client's text is the server's exactly for a plain string.
  lemma KeyTextsAgree(master: string)
    ensures ClientKey(master) == TrimSpace(master) <==> IsPlain(master)
  {
    hide Split, TrimSpace;
    ClientKeyHasNoBar(master);
    TrimSpaceKeeps(master, BAR);
    TrimSpaceShortens(master);
    if BAR !in master && master != "" && master[0] == BYTE_ORDER_MARK {
      MarkIsNotTrimmed(master);
    }
  }

  // With a leading mark the two never agree: one drops the mark, the other only spaces.
  lemma MarkIsNotTrimmed(master: string)
    requires master != "" && master[0] == BYTE_ORDER_MARK
    ensures TrimSpace(master) != master[1..]
  {
    TrimSpacePrefix(master);
    if |TrimSpace(master)| == |master| - 1 {
      assert TrimSpace(master) == master[..|master| - 1];
      if master[1..] == master[..|master| - 1] {
        Constant(master, |master| - 1);
        assert false;
      }
    }
  }

  lemma SplitWhole(s: string)
    requires BAR !in s
    ensures Split(s, BAR) == [s]
  {
  }

  // ---- Agreement ----

  lemma EnvelopeOpens(p: Primitives, token: string, master: string, salt: bytes, iv: bytes, expires: string)
    requires p.IsIdeal()
    ensures var r := Unwrap(p, token, Issue(p, token, master, salt, iv, expires));
      r.Some? && r.value.0 == ClientKey(master)
      && (IsPlain(master) && BAR !in expires ==> r.value.1 == expires)
  {
    hide Split, Base64Url.Decode, Base64Url.Encode, TrimSpace;
    var clear := master + [BAR] + expires;
    Base64Url.DecodeEncode(salt);
    Base64Url.DecodeEncode(iv);
    var key := p.stretch(p.utf8(token), salt, KDF_ITERATIONS);
    Base64Url.DecodeEncode(p.seal(key, iv, p.utf8(clear)));
    EnvelopeKey(master, expires);
    if IsPlain(master) && BAR !in expires {
      assert WithoutMark(clear) == clear by { assert clear[0] == if master == "" then BAR else master[0]; }
      SplitConcat(master, BAR, expires);
      assert Split(expires, BAR) == [expires] by { SplitWhole(expires); }
    }
  }

  // A token that the server reads differently does not open the envelope.
  lemma EnvelopeStaysShut(p: Primitives, token: string, other: string, master: string,
                          salt: bytes, iv: bytes, expires: string)
    requires p.IsIdeal()
    requires p.stretch(p.utf8(token), salt, KDF_ITERATIONS) != p.stretch(p.utf8(other), salt, KDF_ITERATIONS)
    ensures Unwrap(p, token, Issue(p, other, master, salt, iv, expires)).None?
  {
    hide Split, Base64Url.Decode, Base64Url.Encode;
    Base64Url.DecodeEncode(salt);
    Base64Url.DecodeEncode(iv);
    Base64Url.DecodeEncode(p.seal(p.stretch(p.utf8(other), salt, KDF_ITERATIONS), iv, p.utf8(master + [BAR] + expires)));
  }

  // There is a batch unless the master string is blank, and it is read with exactly the
  // session keys whose digest is the server's key.
  lemma SealedIsRead(p: Primitives, master: string, nonce: bytes, json: string, ciphertext: string, sessionKey: string)
    requires p.IsIdeal() && |nonce| == 12
    ensures var r := SealedBatch(p, master, nonce, json);
      && (r.Some? <==> TrimSpace(master) != "")
      && (r.Some? && Base64Url.Decode(ciphertext) == r ==>
            DecryptFeed(p, ciphertext, sessionKey)
            == if ParseKey32(p, master) == Some(p.digest(p.utf8(sessionKey))) then Some(WithoutMark(json)) else None)
  {
    hide TrimSpace, Base64Url.Decode;
    if TrimSpace(master) != "" {
      var key := ParseKey32(p, master).value;
      var body := p.seal(key, nonce, p.deflate(p.utf8(json)));
      assert (nonce + body)[..12] == nonce && (nonce + body)[12..] == body;
    }
  }

  // Both ends have the same key: no decoder reads the master string and both take it as
  // it stands, or a decoder reads as a key the very digest of the client's text.
  predicate IsSameKey(p: Primitives, master: string) {
    var s := TrimSpace(master);
    s != "" &&
      match Decoded32(p, s)
      case Some(key) => key == p.digest(p.utf8(ClientKey(master)))
      case None => IsPlain(master)
  }

  // PBKDF2 and SHA-256 tell apart what the two ends feed them here.
  ghost predicate DoesNotCollide(p: Primitives, master: string, typed: string, salt: bytes) {
    var (t, u) := (WireName.Trim(typed), TrimSpace(WireName.Trim(typed)));
    && (p.stretch(p.utf8(t), salt, KDF_ITERATIONS) == p.stretch(p.utf8(u), salt, KDF_ITERATIONS) ==> t == u)
    && (p.digest(p.utf8(ClientKey(master))) == p.digest(p.utf8(TrimSpace(master))) ==> ClientKey(master) == TrimSpace(master))
  }

  lemma SameKeyIff(p: Primitives, master: string)
    requires p.digest(p.utf8(ClientKey(master))) == p.digest(p.utf8(TrimSpace(master)))
             ==> ClientKey(master) == TrimSpace(master)
    ensures ParseKey32(p, master) == Some(p.digest(p.utf8(ClientKey(master)))) <==> IsSameKey(p, master)
  {
    hide TrimSpace, ClientKey, IsPlain, Decoded32;
    KeyTextsAgree(master);
  }

  // Exactly when the client reads a batch, for every master string and every token as it
  // was typed; in every other case it reads nothing.
  lemma OpenedIff(p: Primitives, master: string, typed: string, d: Draws, json: string, ciphertext: string)
    requires p.IsIdeal() && |d.nonce| == 12 && WithoutMark(json) == json
    requires DoesNotCollide(p, master, typed, d.salt)
    requires SealedBatch(p, master, d.nonce, json).Some?
    requires Base64Url.Decode(ciphertext) == SealedBatch(p, master, d.nonce, json)
    ensures Opened(p, master, typed, d, ciphertext)
         == if IsSameToken(typed) && IsSameKey(p, master) then Some(json) else None
  {
    hide TrimSpace, WireName.Trim, ClientKey, IsSameToken, IsSameKey, Unwrap, Issue, SealedBatch, DecryptFeed;
    hide ParseKey32, Primitives.IsIdeal;
    var token := WireName.Trim(typed);
    TokensAgree(typed);
    SameKeyIff(p, master);
    SealedIsRead(p, master, d.nonce, json, ciphertext, ClientKey(master));
    if TrimSpace(token) == token {
      EnvelopeOpens(p, token, master, d.salt, d.iv, d.expires);
    } else {
      EnvelopeStaysShut(p, token, TrimSpace(token), master, d.salt, d.iv, d.expires);
    }
  }

  predicate ReadsKey(decoded: Option<bytes>) {
    decoded.Some? && |decoded.value| == 32
  }

  // The server's key by the decoders themselves: padded base64 before unpadded before
  // hexadecimal, the digest only when none of them reads 32 bytes.
  lemma KeyByDecoders(p: Primitives, master: string)
    ensures var (s, key) := (TrimSpace(master), ParseKey32(p, master));
      && (key.None? <==> s == "")
      && (s != "" && ReadsKey(p.std(s)) ==> key == p.std(s))
      && (s != "" && !ReadsKey(p.std(s)) && ReadsKey(p.rawStd(s)) ==> key == p.rawStd(s))
      && (s != "" && !ReadsKey(p.std(s)) && !ReadsKey(p.rawStd(s)) && ReadsKey(p.hex(s)) ==> key == p.hex(s))
      && (s != "" && !ReadsKey(p.std(s)) && !ReadsKey(p.rawStd(s)) && !ReadsKey(p.hex(s)) ==>
            key == Some(p.digest(p.utf8(s))))
  {
  }

  // The two ends disagree on every master string that any of the three decoders reads as a
  // key, unless that key is the digest of the client's text, and on every one that is not plain.
  lemma SameKeyByDecoders(p: Primitives, master: string)
    requires p.digest(p.utf8(ClientKey(master))) == p.digest(p.utf8(TrimSpace(master)))
             ==> ClientKey(master) == TrimSpace(master)
    requires forall d :: d in [p.std(TrimSpace(master)), p.rawStd(TrimSpace(master)), p.hex(TrimSpace(master))] ==>
               (ReadsKey(d) ==> d.value != p.digest(p.utf8(ClientKey(master))))
    ensures ParseKey32(p, master) == Some(p.digest(p.utf8(ClientKey(master))))
       <==> TrimSpace(master) != "" && IsPlain(master)
            && !ReadsKey(p.std(TrimSpace(master))) && !ReadsKey(p.rawStd(TrimSpace(master)))
            && !ReadsKey(p.hex(TrimSpace(master)))
  {
    hide TrimSpace, ClientKey, IsPlain;
    SameKeyIff(p, master);
    var s := TrimSpace(master);
    var ds := [p.std(s), p.rawStd(s), p.hex(s)];
    assert ds[0] in ds && ds[1] in ds && ds[2] in ds;
  }

  // A ciphertext without a byte behind its nonce is refused.
  lemma ShortIsRefused(p: Primitives, ciphertext: string, sessionKey: string)
    ensures Base64Url.Decode(ciphertext).Some? && |Base64Url.Decode(ciphertext).value| <= 12 ==>
              DecryptFeed(p, ciphertext, sessionKey).None?
  {
  }

  // Go's trimming takes its white space off both ends, and nothing else.
  lemma {:induction false} TrimSpaceIs(s: string) returns (lead: string, trail: string)
    ensures s == lead + TrimSpace(s) + trail && IsTrimmed(TrimSpace(s))
    ensures forall i :: 0 <= i < |lead| ==> IsGoSpace(lead[i])
    ensures forall i :: 0 <= i < |trail| ==> IsGoSpace(trail[i])
    decreases |s|
  {
    hide IsGoSpace;
    if s != "" && IsGoSpace(s[0]) {
      lead, trail := TrimSpaceIs(s[1..]);
      assert s == [s[0]] + (lead + TrimSpace(s[1..]) + trail);
      lead := [s[0]] + lead;
    } else if s != "" && IsGoSpace(s[|s| - 1]) {
      lead, trail := TrimSpaceIs(s[..|s| - 1]);
      assert s == (lead + TrimSpace(s[..|s| - 1]) + trail) + [s[|s| - 1]];
      trail := trail + [s[|s| - 1]];
    } else {
      lead, trail := "", "";
    }
  }

  // What is read was opened with the key of the client's text.
  lemma OpenedIsUnsealed(p: Primitives, master: string, typed: string, d: Draws, ciphertext: string)
    requires p.IsIdeal() && DoesNotCollide(p, master, typed, d.salt)
    requires Opened(p, master, typed, d, ciphertext).Some?
    ensures Base64Url.Decode(ciphertext).Some?
    ensures var raw := Base64Url.Decode(ciphertext).value;
      |raw| >= 13 && p.unseal(p.digest(p.utf8(ClientKey(master))), raw[..12], raw[12..]).Some?
  {
    hide TrimSpace, WireName.Trim, ClientKey, Unwrap, Issue, Primitives.IsIdeal, Base64Url.Decode;
    var token := WireName.Trim(typed);
    if TrimSpace(token) == token {
      EnvelopeOpens(p, token, master, d.salt, d.iv, d.expires);
    } else {
      EnvelopeStaysShut(p, token, TrimSpace(token), master, d.salt, d.iv, d.expires);
    }
  }

  // ---- The laws can be met together ----

  // A key in front of what it seals, with its length, counted in ones, before it.
  function Lock(key: bytes): bytes {
    seq(|key|, i => 1) + [0] + key
  }

  lemma LockIsPrefixFree(j: bytes, k: bytes, x: bytes)
    requires Lock(j) <= Lock(k) + x
    ensures j == k
  {
    var w := Lock(k) + x;
    assert w[..|Lock(j)|] == Lock(j);
    var m := if |j| < |k| then |j| else |k|;
    assert w[..|Lock(j)|][m] == w[m] == Lock(k)[m];
    assert Lock(j)[m] == 0 <==> m == |j|;
    assert Lock(k)[m] == 0 <==> m == |k|;
    assert w[|k| + 1..2 * |k| + 1] == k;
    assert Lock(j)[|j| + 1..] == j;
  }

  // Three bytes for each character.
  function Wide(s: string): bytes {
    if s == "" then [] else [s[0] as int / 65536, s[0] as int / 256 % 256, s[0] as int % 256] + Wide(s[1..])
  }

  function Narrow(b: bytes): string {
    if |b| < 3 then ""
    else
      var high: int, mid: int, low: int := b[0], b[1], b[2];
      var x := high * 65536 + mid * 256 + low;
      [if x < 0xD800 || 0xE000 <= x < 0x11_0000 then x as char else ' '] + Narrow(b[3..])
  }

  lemma ThreeBytes(x: nat)
    ensures x / 65536 * 65536 + x / 256 % 256 * 256 + x % 256 == x
  {
  }

  lemma NarrowStep(c: char, rest: bytes)
    ensures Narrow([c as int / 65536, c as int / 256 % 256, c as int % 256] + rest) == [c] + Narrow(rest)
  {
    var b: bytes := [c as int / 65536, c as int / 256 % 256, c as int % 256] + rest;
    ThreeBytes(c as int);
    assert b[3..] == rest;
  }

  lemma {:induction false} NarrowWide(s: string)
    ensures Narrow(Wide(s)) == s
  {
    if s != "" {
      hide Narrow;
      NarrowStep(s[0], Wide(s[1..]));
      NarrowWide(s[1..]);
      assert Wide(s) == [s[0] as int / 65536, s[0] as int / 256 % 256, s[0] as int % 256] + Wide(s[1..]);
      assert s == [s[0]] + s[1..];
    }
  }

  // A digest that sets one input apart from all others.
  function Mark(x: bytes, marked: bytes): (d: bytes)
    ensures |d| == 32
  {
    seq(32, i => if x == marked then 1 else 0)
  }

  function Model(marked: bytes): Primitives {
    Primitives(
      (k, n, x) => Lock(k) + x,
      (k, n, c) => if Lock(k) <= c then Some(c[|Lock(k)|..]) else None,
      (password, salt, iterations) => password, x => Mark(x, marked), x => x, x => Some(x),
      s => Wide(s), b => WithoutMark(Narrow(b)), s => None, s => None, s => None)
  }

  lemma ModelIsIdeal(marked: bytes)
    ensures Model(marked).IsIdeal()
  {
    hide Lock, Wide, Narrow;
    var p := Model(marked);
    forall k, n, x ensures p.unseal(k, n, p.seal(k, n, x)) == Some(x) {
      assert (Lock(k) + x)[|Lock(k)|..] == x;
    }
    forall j, k, n, x | j != k ensures p.unseal(j, n, p.seal(k, n, x)).None? {
      if Lock(j) <= Lock(k) + x { LockIsPrefixFree(j, k, x); }
    }
    forall k, n, x ensures p.seal(k, n, x) != [] {
      LockIsNotEmpty(k);
    }
    forall s ensures p.text(p.utf8(s)) == WithoutMark(s) {
      NarrowWide(s);
    }
    forall s, t | p.utf8(s) == p.utf8(t) ensures s == t {
      NarrowWide(s);
      NarrowWide(t);
    }
  }

  lemma LockIsNotEmpty(key: bytes)
    ensures Lock(key) != []
  {
  }

  lemma ModelTellsApart(master: string, typed: string, salt: bytes)
    ensures DoesNotCollide(Model(Wide(ClientKey(master))), master, typed, salt)
  {
    hide TrimSpace, ClientKey, WireName.Trim, Wide, Narrow, Lock;
    var marked := Wide(ClientKey(master));
    var other := Wide(TrimSpace(master));
    assert Mark(marked, marked)[0] == 1;
    assert Mark(other, marked)[0] == if other == marked then 1 else 0;
    NarrowWide(ClientKey(master));
    NarrowWide(TrimSpace(master));
    NarrowWide(WireName.Trim(typed));
    NarrowWide(TrimSpace(WireName.Trim(typed)));
  }

  // For every master string and every token there are functions that obey the laws and
  // tell apart what the two ends feed them, whether the two ends agree or not.
  lemma IdealExists(master: string, typed: string, salt: bytes) returns (p: Primitives)
    ensures p.IsIdeal() && DoesNotCollide(p, master, typed, salt)
  {
    p := Model(Wide(ClientKey(master)));
    ModelIsIdeal(Wide(ClientKey(master)));
    ModelTellsApart(master, typed, salt);
  }
}
