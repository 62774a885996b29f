/**
 The server's refresh: the newest posts in groups of ten, each group marshalled,
 deflated, encrypted, encoded and cut, and the cache replaced.
 */
module Refresh {
  import opened Wrappers
  import opened Text
  import opened Decimal
  import opened Chunking
  import opened Response
  import opened Exchange
  import opened Tunnel
  import Base64Url

  const MAX_ITEMS := 100
  const BATCH_SIZE := 10

  // What a group becomes before it is encoded; None when encryption fails.
  type sealer<!Item> = seq<Item> -> Option<seq<byte>>

  // The loop over an empty list makes no group.
  function Groups<Item>(all: seq<Item>): seq<seq<Item>> {
    if all == [] then [] else Pieces(all, BATCH_SIZE)
  }

  // The encodings of the ciphertexts of these groups have a length.
  predicate IsBounded<Item>(groups: seq<seq<Item>>, seal: sealer<Item>) {
    forall k :: 0 <= k < |groups| && seal(groups[k]).Some? ==> HasLength(seal(groups[k]).value)
  }

  predicate HasLength(data: seq<byte>) {
    |Base64Url.Encode(data)| <= MAX_INT
  }

  lemma ChunksAreChunkList(data: seq<byte>)
    requires HasLength(data)
    ensures |ChunksOf(data)| <= MAX_INT
    ensures forall k :: 0 <= k < |ChunksOf(data)| ==> Base64Url.IsUrlText(ChunksOf(data)[k])
    ensures forall k :: 0 <= k < |ChunksOf(data)| ==> IsByteText(ChunksOf(data)[k])
  {
    hide Base64Url.Encode, Pieces, Base64Url.Decode;
    var text := Base64Url.Encode(data);
    var chunks := ChunksOf(data);
    PiecesCount(text, MAX_TXT_CHUNK_LEN, if |text| == 0 then 1 else |text|);
    Base64Url.DecodeEncode(data);
    forall k | 0 <= k < |chunks|
      ensures Base64Url.IsUrlText(chunks[k]) && IsByteText(chunks[k])
    {
      ChunkIsUrlText(text, chunks[k]);
    }
  }

  lemma ChunkIsUrlText(text: string, chunk: string)
    requires Base64Url.IsUrlText(text) && chunk in Pieces(text, MAX_TXT_CHUNK_LEN)
    ensures Base64Url.IsUrlText(chunk) && IsByteText(chunk)
  {
    hide Pieces;
    forall i | 0 <= i < |chunk| ensures Base64Url.IsUrlChar(chunk[i]) {
      PieceChars(text, MAX_TXT_CHUNK_LEN, chunk, chunk[i]);
      var k :| 0 <= k < |text| && text[k] == chunk[i];
    }
  }

  // The chunks of a sealed group.
  function Sealed<Item>(seal: sealer<Item>, group: seq<Item>): chunklist
    requires seal(group).Some? && HasLength(seal(group).value)
  {
    ChunksAreChunkList(seal(group).value);
    ChunksOf(seal(group).value)
  }

  // The first n groups that could be encrypted, each under its number.
  function GenerationUpTo<Item>(groups: seq<seq<Item>>, seal: sealer<Item>, n: nat): batchmap
    requires n <= |groups| && IsBounded(groups, seal)
  {
    map i: int | 0 <= i < n && seal(groups[i]).Some? :: Sealed(seal, groups[i])
  }

  function Generation<Item>(all: seq<Item>, seal: sealer<Item>): batchmap
    requires IsBounded(Groups(all), seal)
  {
    GenerationUpTo(Groups(all), seal, |Groups(all)|)
  }

  method RefreshChunks<Item>(all: seq<Item>, seal: sealer<Item>, cache: BatchCache)
    requires IsBounded(Groups(all), seal)
    modifies cache
    ensures cache.batches == Generation(all, seal)
  {
    hide Groups, GenerationUpTo, Base64Url.Encode, Pieces, Sealed;
    var newBatches: batchmap := map[];
    ghost var groups := Groups(all);
    var i := 0;
    ghost var n := 0;
    GroupsCover(all);
    NoGenerations(groups, seal);
    while i < |all|
      invariant 0 <= n <= |groups| && i == n * BATCH_SIZE
      invariant newBatches == GenerationUpTo(groups, seal, n)
    {
      var end := i + BATCH_SIZE;
      if end > |all| {
        end := |all|;
      }
      GroupAt(all, n);
      assert all[i..end] == groups[n];
      var encrypted := seal(all[i..end]);
      var number := i / BATCH_SIZE;
      GenerationStep(groups, seal, n);
      n := n + 1;
      i := i + BATCH_SIZE;
      if encrypted.None? {
        continue;
      }
      var encoded := Base64Url.Encode(encrypted.value);
      var chunks := SplitFixed(encoded, MAX_TXT_CHUNK_LEN);
      ChunksAreChunkList(encrypted.value);
      SealedIs(seal, groups[n - 1]);
      newBatches := newBatches[number := chunks];
    }
    GroupsCover(all);
    cache.Set(newBatches);
  }

  lemma NoGenerations<Item>(groups: seq<seq<Item>>, seal: sealer<Item>)
    requires IsBounded(groups, seal)
    ensures GenerationUpTo(groups, seal, 0) == map[]
  {
  }

  lemma SealedIs<Item>(seal: sealer<Item>, group: seq<Item>)
    requires seal(group).Some? && HasLength(seal(group).value)
    ensures Sealed(seal, group) == Pieces(Base64Url.Encode(seal(group).value), MAX_TXT_CHUNK_LEN)
  {
  }

  lemma GenerationStep<Item>(groups: seq<seq<Item>>, seal: sealer<Item>, n: nat)
    requires n < |groups| && IsBounded(groups, seal)
    ensures GenerationUpTo(groups, seal, n + 1)
         == if seal(groups[n]).Some? then GenerationUpTo(groups, seal, n)[n := Sealed(seal, groups[n])]
            else GenerationUpTo(groups, seal, n)
  {
    hide Sealed, HasLength;
  }

  // There are as many groups as it takes to hold the list.
  lemma GroupsCover<Item>(all: seq<Item>)
    ensures |all| <= |Groups(all)| * BATCH_SIZE
    ensures if all == [] then Groups(all) == [] else |all| > (|Groups(all)| - 1) * BATCH_SIZE
  {
    if all != [] {
      var n := |Groups(all)|;
      PiecesCount(all, BATCH_SIZE, n);
      if n > 1 {
        PiecesCount(all, BATCH_SIZE, n - 1);
      }
    }
  }

  lemma {:induction false} GroupAt<Item>(all: seq<Item>, n: nat)
    requires n * BATCH_SIZE < |all|
    ensures n < |Groups(all)|
    ensures Groups(all)[n] == all[n * BATCH_SIZE..if (n + 1) * BATCH_SIZE > |all| then |all| else (n + 1) * BATCH_SIZE]
    decreases n
  {
    if |all| > BATCH_SIZE && n > 0 {
      var rest := all[BATCH_SIZE..];
      GroupAt(rest, n - 1);
      assert Groups(all) == [all[..BATCH_SIZE]] + Groups(rest);
      var end := if n * BATCH_SIZE > |rest| then |rest| else n * BATCH_SIZE;
      SliceOfSlice(all, BATCH_SIZE, |all|, (n - 1) * BATCH_SIZE, end);
      assert all[BATCH_SIZE..|all|] == rest;
    }
  }

  // Everything the server publishes is cut from base64url text, and the batches of at
  // most a hundred posts are numbered 0 to 9.
  lemma GenerationIsPublishable<Item>(all: seq<Item>, seal: sealer<Item>)
    requires IsBounded(Groups(all), seal)
    ensures IsPublishable(Generation(all, seal))
    ensures |all| <= MAX_ITEMS ==> forall b :: b in Generation(all, seal) ==> 0 <= b < 10
  {
    var g := Generation(all, seal);
    forall b, k | b in g && 0 <= k < |g[b]| ensures Base64Url.IsUrlText(g[b][k]) {
      ChunksAreChunkList(seal(Groups(all)[b]).value);
    }
    if all != [] && |all| <= MAX_ITEMS {
      PiecesCount(all, BATCH_SIZE, 10);
    }
  }
}
