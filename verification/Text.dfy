/** Optional values: the second result of the server's `(value, ok)` pairs, and the client's `null`. */
module Wrappers {
  datatype Option<+T> = None | Some(value: T)
}

/**
 Strings and packets.  A string is a sequence of characters, a packet a sequence of
 bytes; a character and its byte have the same code, so that a string of byte-sized
 characters stands for a Go string of arbitrary bytes.
 */
module Text {
  type byte = x: int | 0 <= x < 256

  const DOT := '.'

  function ToBytes(s: string): (b: seq<byte>)
    ensures |b| == |s|
  {
    seq<byte>(|s|, i requires 0 <= i < |s| => s[i] as int % 256)
  }

  function ToText(b: seq<byte>): (s: string)
    ensures |s| == |b|
    ensures forall i :: 0 <= i < |b| ==> s[i] as int == b[i]
  {
    seq(|b|, i requires 0 <= i < |b| => b[i] as char)
  }

  predicate IsByteText(s: string) {
    forall i :: 0 <= i < |s| ==> s[i] as int < 256
  }

  lemma TextOfBytes(s: string)
    requires IsByteText(s)
    ensures ToText(ToBytes(s)) == s
  {
    forall i | 0 <= i < |s|
      ensures ToText(ToBytes(s))[i] == s[i]
    {
      assert s[i] as int % 256 == s[i] as int;
    }
  }

  lemma BytesOfText(b: seq<byte>)
    ensures ToBytes(ToText(b)) == b
  {
  }

  // ASCII lower-casing.
  function LowerChar(c: char): char {
    if 'A' <= c <= 'Z' then (c as int + 32) as char else c
  }

  function Lower(s: string): (r: string)
    ensures |r| == |s|
  {
    seq(|s|, i requires 0 <= i < |s| => LowerChar(s[i]))
  }

  lemma LowerConcat(s: string, t: string)
    ensures Lower(s + t) == Lower(s) + Lower(t)
  {
  }

  const UPPER := "ABCDEFGHIJKLMNOPQRSTUVWXYZ"
  const LOWER := "abcdefghijklmnopqrstuvwxyz"

  // The letters of the alphabet, and nothing else, change their case.
  lemma LowerLetters(c: char)
    ensures |UPPER| == |LOWER| && forall k :: 0 <= k < |UPPER| ==> LowerChar(UPPER[k]) == LOWER[k]
    ensures c !in UPPER ==> LowerChar(c) == c
  {
    assert 'A' <= c <= 'Z' ==> UPPER[c as int - 'A' as int] == c;
  }

  predicate HasPrefix(s: string, prefix: string) {
    |prefix| <= |s| && s[..|prefix|] == prefix
  }

  predicate HasSuffix(s: string, suffix: string) {
    |suffix| <= |s| && s[|s| - |suffix|..] == suffix
  }

  function TrimSuffix(s: string, suffix: string): string {
    if HasSuffix(s, suffix) then s[..|s| - |suffix|] else s
  }

  function Repeat(c: char, n: nat): (r: string)
    ensures |r| == n && forall i :: 0 <= i < n ==> r[i] == c
  {
    seq(n, i => c)
  }

  lemma SliceOfSlice<T>(s: seq<T>, a: nat, b: nat, i: nat, j: nat)
    requires a <= b <= |s| && i <= j <= b - a
    ensures s[a..b][i..j] == s[a + i..a + j]
  {
    var inner, direct := s[a..b][i..j], s[a + i..a + j];
    assert |inner| == |direct|;
    forall k | 0 <= k < j - i
      ensures inner[k] == direct[k]
    {
      assert s[a..b][i + k] == s[a + i + k];
    }
  }

  function Concat(parts: seq<string>): string {
    if parts == [] then "" else parts[0] + Concat(parts[1..])
  }

  function Join(parts: seq<string>, sep: char): string {
    if parts == [] then ""
    else if |parts| == 1 then parts[0]
    else parts[0] + [sep] + Join(parts[1..], sep)
  }

  // The pieces of s between separators; always at least one.
  function Split(s: string, sep: char): (parts: seq<string>)
    ensures parts != []
  {
    if sep !in s then [s]
    else
      var i := IndexOf(s, sep);
      [s[..i]] + Split(s[i + 1..], sep)
  }

  function IndexOf(s: string, c: char): (i: nat)
    requires c in s
    ensures i < |s| && s[i] == c && c !in s[..i]
  {
    if s[0] == c then 0 else 1 + IndexOf(s[1..], c)
  }

  lemma {:induction false} IndexOfConcat(s: string, c: char, t: string)
    requires c !in s
    ensures IndexOf(s + [c] + t, c) == |s|
  {
    if s == [] {
    } else {
      assert (s + [c] + t)[1..] == s[1..] + [c] + t;
      IndexOfConcat(s[1..], c, t);
    }
  }

  lemma SplitConcat(s: string, sep: char, t: string)
    requires sep !in s
    ensures Split(s + [sep] + t, sep) == [s] + Split(t, sep)
  {
    var w := s + [sep] + t;
    assert w[|s|] == sep;
    IndexOfConcat(s, sep, t);
    assert w[..|s|] == s && w[|s| + 1..] == t;
  }

  lemma OneJoined(s: string, sep: char)
    requires sep !in s
    ensures Join([s], sep) == s && Split(s, sep) == [s]
  {
  }

  lemma FirstJoined(parts: seq<string>, sep: char)
    requires |parts| > 1
    ensures Join(parts, sep) == parts[0] + [sep] + Join(parts[1..], sep)
  {
  }

  // Splitting undoes joining when no piece contains the separator.
  lemma {:induction false} SplitJoin(parts: seq<string>, sep: char)
    requires parts != []
    requires forall p :: p in parts ==> sep !in p
    ensures Split(Join(parts, sep), sep) == parts
  {
    hide Split, Join;
    if |parts| == 1 {
      OneJoined(parts[0], sep);
      assert parts == [parts[0]];
    } else {
      SplitJoin(parts[1..], sep);
      SplitConcat(parts[0], sep, Join(parts[1..], sep));
      FirstJoined(parts, sep);
      assert parts == [parts[0]] + parts[1..];
    }
  }
}
