/** Cutting a text or a list into pieces of a fixed size. */
module Chunking {
  import opened Text

  const MAX_TXT_CHUNK_LEN := 220

  // The pieces of s, each of the given size but for the last.
  function Pieces<T>(s: seq<T>, size: int): (out: seq<seq<T>>)
    ensures out != []
    decreases |s|
  {
    if size <= 0 || |s| <= size then [s]
    else [s[..size]] + Pieces(s[size..], size)
  }

  /** `splitFixed`: the loop appends one slice after another. */
  method SplitFixed(s: string, size: int) returns (out: seq<string>)
    ensures out == Pieces(s, size)
  {
    if size <= 0 || |s| <= size {
      return [s];
    }
    out := [];
    var i := 0;
    while i < |s|
      invariant 0 <= i
      invariant i < |s| ==> out + Pieces(s[i..], size) == Pieces(s, size)
      invariant i >= |s| ==> out == Pieces(s, size)
      decreases |s| - i
    {
      var end := i + size;
      if end > |s| {
        end := |s|;
      }
      ghost var rest := s[i..];
      assert i + size < |s| ==> rest[size..] == s[i + size..] && rest[..size] == s[i..end];
      assert i + size >= |s| ==> rest == s[i..end];
      out := out + [s[i..end]];
      i := i + size;
    }
  }

  // The concatenation of a list of slices.
  function Flatten<T>(parts: seq<seq<T>>): seq<T> {
    if parts == [] then [] else parts[0] + Flatten(parts[1..])
  }

  // What a cut is for: nothing lost or reordered, full pieces but for the last,
  // and no empty piece.
  ghost predicate IsCut<T>(parts: seq<seq<T>>, s: seq<T>, size: nat) {
    && parts != []
    && Flatten(parts) == s
    && (forall k :: 0 <= k < |parts| - 1 ==> |parts[k]| == size)
    && |parts[|parts| - 1]| <= size
    && (s != [] ==> parts[|parts| - 1] != [])
  }

  lemma {:induction false} PiecesCut<T>(s: seq<T>, size: nat)
    requires size > 0
    ensures IsCut(Pieces(s, size), s, size)
    decreases |s|
  {
    var ps := Pieces(s, size);
    if |s| > size {
      PiecesCut(s[size..], size);
      assert ps[1..] == Pieces(s[size..], size);
      assert ps[|ps| - 1] == ps[1..][|ps| - 2];
      assert forall k :: 1 <= k < |ps| - 1 ==> ps[k] == ps[1..][k - 1];
    } else {
      assert ps == [s] && Flatten(ps) == s + Flatten<T>([]);
    }
  }

  // What is not longer than a piece, or is cut by no positive size, stays whole.
  lemma WholePiece<T>(s: seq<T>, size: int)
    ensures Pieces(s, size) == [s] <==> size <= 0 || |s| <= size
  {
    if size > 0 && |s| > size {
      assert Pieces(s, size)[0] == s[..size];
    }
  }

  // There is only one such cut.
  lemma {:induction false} CutUnique<T>(parts: seq<seq<T>>, s: seq<T>, size: nat)
    requires size > 0 && IsCut(parts, s, size)
    ensures parts == Pieces(s, size)
    decreases |parts|
  {
    if |parts| == 1 {
      assert parts[1..] == [];
      assert s == parts[0];
    } else {
      var rest := parts[1..];
      assert s == parts[0] + Flatten(rest);
      assert s[size..] == Flatten(rest);
      assert rest[|rest| - 1] == parts[|parts| - 1];
      LastIsPart(rest);
      assert |s| > size;
      CutUnique(rest, s[size..], size);
      assert parts == [parts[0]] + rest;
    }
  }

  lemma {:induction false} LastIsPart<T>(parts: seq<seq<T>>)
    requires parts != []
    ensures |parts[|parts| - 1]| <= |Flatten(parts)|
  {
    if |parts| > 1 {
      LastIsPart(parts[1..]);
      assert parts[1..][|parts| - 2] == parts[|parts| - 1];
    }
  }

  // k pieces hold the whole text exactly when k * size does.
  lemma {:induction false} PiecesCount<T>(s: seq<T>, size: nat, k: nat)
    requires size > 0 && k > 0
    ensures |Pieces(s, size)| <= k <==> |s| <= k * size
    decreases |s|
  {
    if |s| > size {
      if k == 1 {
        assert |Pieces(s[size..], size)| >= 1;
      } else {
        PiecesCount(s[size..], size, k - 1);
        assert k * size == (k - 1) * size + size;
      }
    } else {
      MulAtLeast(k, size);
    }
  }

  lemma MulAtLeast(k: nat, size: nat)
    requires k > 0
    ensures k * size >= size
  {
    assert k * size == (k - 1) * size + size;
    MulNonnegative(k - 1, size);
  }

  lemma MulNonnegative(a: nat, b: nat)
    ensures a * b >= 0
  {
  }

  method SplitForTargetParts(s: string, parts: int) returns (out: seq<string>)
    ensures Concat(out) == s
    ensures parts >= 1 ==> |out| <= parts
    ensures parts < 1 ==> out == [s]
    // The pieces are equal in size, and as small as that many pieces allow.
    ensures parts > 1 && s != "" ==>
              exists size: nat :: size > 0 && (size - 1) * parts < |s| <= size * parts && IsCut(out, s, size)
  {
    hide Pieces, IsCut;
    if parts <= 1 || |s| == 0 {
      assert Concat([s]) == s + Concat([s][1..]);
      return [s];
    }
    var chunkSize := (|s| + parts - 1) / parts;
    CeilDiv(|s|, parts);
    out := SplitFixed(s, chunkSize);
    PiecesCount(s, chunkSize, parts);
    PiecesCut(s, chunkSize);
    FlattenIsConcat(out);
    assert chunkSize * parts == parts * chunkSize;
  }

  lemma CeilDiv(n: nat, parts: nat)
    requires n > 0 && parts > 0
    ensures var size := (n + parts - 1) / parts; size > 0 && (size - 1) * parts < n <= size * parts
  {
    var q, r := (n + parts - 1) / parts, (n + parts - 1) % parts;
    assert n + parts - 1 == q * parts + r;
    assert (q - 1) * parts == q * parts - parts;
  }

  lemma {:induction false} FlattenIsConcat(parts: seq<string>)
    ensures Flatten(parts) == Concat(parts)
  {
    if parts != [] {
      FlattenIsConcat(parts[1..]);
    }
  }

  // Cutting and joining again gives the text back.
  lemma ConcatPieces(s: string, size: nat)
    requires size > 0
    ensures Concat(Pieces(s, size)) == s
  {
    PiecesCut(s, size);
    FlattenIsConcat(Pieces(s, size));
  }

  lemma {:induction false} PieceChars(s: string, size: nat, p: string, c: char)
    requires size > 0 && p in Pieces(s, size) && c in p
    ensures c in s
    decreases |s|
  {
    if |s| > size && p != s[..size] {
      PieceChars(s[size..], size, p, c);
      assert c in s[size..];
    }
  }
}
