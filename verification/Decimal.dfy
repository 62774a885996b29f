/** Decimal text: the server's `intToString` and the digit loops that read numbers back. */
module Decimal {
  const MAX_INT := 0x7FFF_FFFF_FFFF_FFFF
  const MIN_INT := -0x8000_0000_0000_0000

  // Go's `int` on a 64-bit machine.
  type int64 = x: int | MIN_INT <= x <= MAX_INT

  // The value a 64-bit addition or multiplication leaves in place of x.
  function Wrap64(x: int): (w: int64) {
    (x + 0x8000_0000_0000_0000) % 0x1_0000_0000_0000_0000 - 0x8000_0000_0000_0000
  }

  // Negation overflows for one value, which stays as it is.
  function Negate64(x: int64): (y: int64)
    ensures var n: int := x; y == Wrap64(-n)
  {
    if x == MIN_INT then x else -x
  }

  predicate IsDigit(c: char) {
    '0' <= c <= '9'
  }

  predicate AllDigits(s: string) {
    forall i :: 0 <= i < |s| ==> IsDigit(s[i])
  }

  function DigitValue(c: char): (d: nat)
    requires IsDigit(c)
    ensures d < 10
  {
    c as int - '0' as int
  }

  function DigitChar(d: nat): (c: char)
    requires d < 10
    ensures IsDigit(c) && DigitValue(c) == d
  {
    ('0' as int + d) as char
  }

  // The number a digit string denotes.
  function Value(s: string): nat
    requires AllDigits(s)
  {
    if s == [] then 0 else 10 * Value(s[..|s| - 1]) + DigitValue(s[|s| - 1])
  }

  // The canonical decimal text of n, without leading zeros.
  function Digits(n: nat): (s: string)
    ensures s != [] && AllDigits(s)
  {
    if n < 10 then [DigitChar(n)] else Digits(n / 10) + [DigitChar(n % 10)]
  }

  lemma {:induction false} ValueOfDigits(n: nat)
    ensures Value(Digits(n)) == n
  {
    if n < 10 {
      assert Digits(n)[..0] == [];
    } else {
      ValueOfDigits(n / 10);
      assert Digits(n)[..|Digits(n)| - 1] == Digits(n / 10);
    }
  }

  lemma {:induction false} ValuePositive(s: string)
    requires s != [] && AllDigits(s) && s[0] != '0'
    ensures Value(s) >= 1
  {
    if |s| > 1 {
      ValuePositive(s[..|s| - 1]);
    }
  }

  // Every digit string without a leading zero is the canonical text of its value.
  lemma {:induction false} DigitsOfValue(s: string)
    requires s != [] && AllDigits(s)
    requires s[0] != '0' || |s| == 1
    ensures Digits(Value(s)) == s
  {
    var init, last := s[..|s| - 1], s[|s| - 1];
    assert s == init + [last];
    if init != [] {
      ValuePositive(init);
      DigitsOfValue(init);
    }
  }

  function Pow10(k: nat): (p: nat)
    ensures p >= 1
  {
    if k == 0 then 1 else 10 * Pow10(k - 1)
  }

  // The canonical text of n has at most k >= 1 digits exactly when n < 10^k.
  lemma {:induction false} DigitsLength(n: nat, k: nat)
    requires k >= 1
    ensures |Digits(n)| <= k <==> n < Pow10(k)
  {
    if k == 1 {
      assert Pow10(1) == 10;
      if n >= 10 {
        assert |Digits(n)| == |Digits(n / 10)| + 1;
      }
    } else if n >= 10 {
      DigitsLength(n / 10, k - 1);
    }
  }

  lemma Pow10At19()
    ensures Pow10(19) == 10_000_000_000_000_000_000
  {
    assert Pow10(4) == 10_000;
    assert Pow10(8) == 100_000_000;
    assert Pow10(12) == 1_000_000_000_000;
    assert Pow10(16) == 10_000_000_000_000_000;
  }

  // What the program prints: the sign and the digits, except that the one value
  // whose negation overflows prints as a lone sign.
  function IntText(v: int64): string {
    if v == MIN_INT then "-"
    else if v < 0 then "-" + Digits(-v)
    else Digits(v)
  }

  // Reading a printed number: an optional sign, then digits.
  function ReadInt(s: string): int
    requires s != []
    requires AllDigits(s) || (s[0] == '-' && AllDigits(s[1..]))
  {
    var n: int := Value(if s[0] == '-' then s[1..] else s);
    if s[0] == '-' then -n else n
  }

  // Printing then reading gives the number back for every value but one.
  lemma IntTextReadsBack(v: int64)
    ensures IntText(v) != []
    ensures var s := IntText(v); AllDigits(s) || (s[0] == '-' && AllDigits(s[1..]))
    ensures ReadInt(IntText(v)) == v <==> v != MIN_INT
  {
    if v == MIN_INT {
    } else if v < 0 {
      ValueOfDigits(-v);
      assert IntText(v)[1..] == Digits(-v);
    } else {
      ValueOfDigits(v);
    }
  }

  function DigitsOrNone(n: nat): string {
    if n == 0 then "" else Digits(n)
  }

  lemma DigitsOrNoneStep(v: nat, rest: string)
    requires v > 0
    ensures DigitsOrNone(v / 10) + ([DigitChar(v % 10)] + rest) == DigitsOrNone(v) + rest
    ensures |DigitsOrNone(v)| == |DigitsOrNone(v / 10)| + 1
  {
    assert DigitsOrNone(v) == DigitsOrNone(v / 10) + [DigitChar(v % 10)];
  }

  lemma NoDigits()
    ensures DigitsOrNone(0) == ""
  {
  }

  lemma AtMost19Digits(n: nat)
    requires n <= MAX_INT
    ensures |Digits(n)| <= 19
  {
    Pow10At19();
    DigitsLength(n, 19);
  }

  /** A fixed buffer of 20 bytes filled from its end; it never runs out. */
  method IntToString(v0: int64) returns (s: string)
    ensures s == IntText(v0)
  {
    if v0 == 0 {
      return "0";
    }
    var v: int := v0;
    var neg := v < 0;
    if neg {
      v := Negate64(v);
    }
    ghost var full := if v > 0 then Digits(v) else "";
    if v > 0 { AtMost19Digits(v); }
    var buf := new char[20];
    var i := FillDigits(buf, v, full);
    if neg {
      i := i - 1;
      buf[i] := '-';
      assert buf[i..] == ['-'] + full;
    }
    s := buf[i..];
  }

  // The digit loop: the least significant digit goes to the last free place.
  method FillDigits(buf: array<char>, v0: int, ghost full: string) returns (i: nat)
    requires full == DigitsOrNone(if v0 > 0 then v0 else 0)
    requires |full| < buf.Length
    modifies buf
    ensures 0 < i <= buf.Length && buf[i..] == full
  {
    hide DigitsOrNone, Digits;
    NoDigits();
    var v := v0;
    i := buf.Length;
    while v > 0
      invariant 0 < i <= buf.Length
      invariant |DigitsOrNone(if v > 0 then v else 0)| < i
      invariant DigitsOrNone(if v > 0 then v else 0) + buf[i..] == full
    {
      ghost var tail := buf[i..];
      DigitsOrNoneStep(v, tail);
      var digit := DigitChar(v % 10);
      i, v := i - 1, v / 10;
      buf[i] := digit;
      assert buf[i..] == [digit] + tail;
    }
  }

  // The value the server's loop `n = n*10 + digit` reaches, wrapping at 64 bits.
  function WrapValue(s: string): int64
    requires AllDigits(s)
  {
    if s == [] then 0 else Wrap64(WrapValue(s[..|s| - 1]) * 10 + DigitValue(s[|s| - 1]))
  }

  lemma WrapStep(a: int, d: nat)
    requires d < 10
    ensures Wrap64(Wrap64(a) * 10 + d) == Wrap64(a * 10 + d)
  {
    var m := 0x1_0000_0000_0000_0000;
    var q := (a + 0x8000_0000_0000_0000) / m;
    assert Wrap64(a) == a - q * m;
    ModShift(a * 10 + d + 0x8000_0000_0000_0000, -10 * q);
  }

  lemma ModShift(x: int, k: int)
    ensures (x + k * 0x1_0000_0000_0000_0000) % 0x1_0000_0000_0000_0000 == x % 0x1_0000_0000_0000_0000
  {
  }

  // Wrapping at every step is wrapping once at the end.
  lemma {:induction false} WrapValueIs(s: string)
    requires AllDigits(s)
    ensures WrapValue(s) == Wrap64(Value(s))
  {
    if s != [] {
      WrapValueIs(s[..|s| - 1]);
      WrapStep(Value(s[..|s| - 1]), DigitValue(s[|s| - 1]));
    }
  }

  // A printed number below 2^63 is read back unchanged by the wrapping loop.
  lemma WrapValueOfDigits(n: nat)
    requires n <= MAX_INT
    ensures WrapValue(Digits(n)) == n
  {
    WrapValueIs(Digits(n));
    ValueOfDigits(n);
  }

  // The length of the longest run of digits at the start of s.
  function DigitRun(s: string): (k: nat)
    ensures k <= |s| && AllDigits(s[..k])
    ensures k < |s| ==> !IsDigit(s[k])
  {
    if s == [] || !IsDigit(s[0]) then 0
    else
      var k := 1 + DigitRun(s[1..]);
      assert forall i :: 1 <= i < k ==> s[i] == s[1..][..k - 1][i - 1];
      k
  }

  lemma {:induction false} DigitRunConcat(ds: string, rest: string)
    requires AllDigits(ds)
    requires rest != "" && !IsDigit(rest[0])
    ensures DigitRun(ds + rest) == |ds|
  {
    if ds == [] {
      assert ds + rest == rest;
    } else {
      assert (ds + rest)[1..] == ds[1..] + rest;
      DigitRunConcat(ds[1..], rest);
    }
  }
}
