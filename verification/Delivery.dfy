/**
 From the list of posts on the server to the feed on the client: the cut into batches, the
 tunnel, the key path and the merge together, over a cache that stays and one that rotates.
 */
module Delivery {
  import opened Wrappers
  import opened Text
  import opened Decimal
  import opened Chunking
  import opened Response
  import opened Exchange
  import opened Tunnel
  import opened Refresh
  import opened FeedMerge
  import Base64Url
  import Client
  import KeyPath
  import Rotation

  // A batch that the server encrypts, cuts and keeps: every fetch of it, over a network
  // that does not lose three rounds in a row, ends, and the client then reads exactly the
  // text that was encrypted, or, when the two ends take token or key differently, nothing.
  lemma BatchIsRead(setup: Setup, batches: batchmap, batch: nat, net: Client.network,
                    p: KeyPath.Primitives, master: string, typed: string, d: KeyPath.Draws, json: string)
    requires setup.Valid() && batch <= MAX_INT && IsPublishable(batches)
    requires KeyPath.SealedBatch(p, master, d.nonce, json).Some?
    requires var chunks := ChunksOf(KeyPath.SealedBatch(p, master, d.nonce, json).value);
      Lookup(batches, batch) == chunks && |chunks| <= Client.MAX_ARRAY_LENGTH
    requires IsReliable(setup, batches, batch, net)
    requires p.IsIdeal() && |d.nonce| == 12 && KeyPath.WithoutMark(json) == json
    requires KeyPath.DoesNotCollide(p, master, typed, d.salt)
    ensures var fetched := Client.Run(net, batch, setup.Domain(), 0, Client.START);
      && fetched.Done?
      && KeyPath.Opened(p, master, typed, d, fetched.ciphertext)
         == if KeyPath.IsSameToken(typed) && KeyPath.IsSameKey(p, master) then Some(json) else None
  {
    hide IsPublishable, IsReliable, Client.Run, KeyPath.Opened, KeyPath.IsSameKey, KeyPath.IsSameToken;
    hide KeyPath.Primitives.IsIdeal, KeyPath.DoesNotCollide, ChunksOf;
    var data := KeyPath.SealedBatch(p, master, d.nonce, json).value;
    EndToEnd(setup, batches, batch, data, net);
    KeyPath.OpenedIff(p, master, typed, d, json, Client.Run(net, batch, setup.Domain(), 0, Client.START).ciphertext);
  }

  // ---- The whole feed ----

  // The two programs and what they draw: marshalling and parsing of a batch, the nonce of
  // each batch, and the line each batch is fetched over.
  datatype Ends = Ends(
    setup: Setup,
    crypto: KeyPath.Primitives,
    master: string,
    typed: string,
    draws: KeyPath.Draws,
    marshal: seq<FeedItem> -> string,
    parse: string -> Option<seq<FeedItem>>,
    nonce: seq<FeedItem> -> seq<byte>,
    lines: nat -> Line)
  {
    function Seal(): sealer<FeedItem> {
      group => KeyPath.SealedBatch(crypto, master, nonce(group), marshal(group))
    }

    // Parsing undoes marshalling, marshalled text has no byte order mark, and both ends
    // have one key.
    ghost predicate Agree() {
      && setup.Valid()
      && (forall g :: parse(marshal(g)) == Some(g) && KeyPath.WithoutMark(marshal(g)) == marshal(g))
      && (forall g :: |nonce(g)| == 12)
      && crypto.IsIdeal() && KeyPath.DoesNotCollide(crypto, master, typed, draws.salt)
      && KeyPath.IsSameToken(typed) && KeyPath.IsSameKey(crypto, master)
    }

    // What the fetch of one batch adds to the feed: a failure of any kind adds nothing.
    function Fetched(cache: batchmap, batch: nat): seq<FeedItem> {
      match Client.Run(lines(batch).Network(setup, cache), batch, setup.Domain(), 0, Client.START)
      case Done(ciphertext, _, _) =>
        (match KeyPath.Opened(crypto, master, typed, draws, ciphertext)
         case None => []
         case Some(json) => (match parse(json) case None => [] case Some(items) => items))
      case _ => []
    }
  }

  const BATCHES := 10

  lemma CacheOf<Item>(all: seq<Item>, seal: sealer<Item>, b: nat)
    requires IsBounded(Groups(all), seal)
    ensures Lookup(Generation(all, seal), b)
         == if b < |Groups(all)| && seal(Groups(all)[b]).Some? then ChunksOf(seal(Groups(all)[b]).value) else []
  {
    hide Groups, ChunksOf, HasLength;
  }

  // A batch that exists and fits arrives as the group it was made of.
  lemma GroupArrives(ends: Ends, all: seq<FeedItem>, b: nat)
    requires ends.Agree() && IsBounded(Groups(all), ends.Seal()) && b < |Groups(all)| && b <= MAX_INT
    requires var cache := Generation(all, ends.Seal());
      AllFit(ends.setup, cache, b) && |Lookup(cache, b)| <= Client.MAX_ARRAY_LENGTH
    ensures ends.Fetched(Generation(all, ends.Seal()), b) == Groups(all)[b]
  {
    hide Groups, IsBounded, ChunksOf, Generation, AllFit, IsReliable, IsPublishable, Client.Run, KeyPath.Opened, Line.Network;
    hide KeyPath.SealedBatch, KeyPath.IsSameKey, KeyPath.IsSameToken, KeyPath.Primitives.IsIdeal, KeyPath.DoesNotCollide;
    var (group, cache) := (Groups(all)[b], Generation(all, ends.Seal()));
    var d := ends.draws.(nonce := ends.nonce(group));
    SealSucceeds(ends, group);
    CacheOf(all, ends.Seal(), b);
    GenerationIsPublishable(all, ends.Seal());
    var data := ends.Seal()(group).value;
    LineDeliversIff(ends.setup, cache, b, data, ends.lines(b));
    var text := Client.Run(ends.lines(b).Network(ends.setup, cache), b, ends.setup.Domain(), 0, Client.START).ciphertext;
    NonceDoesNotMatter(ends, d, text);
    KeyPath.OpenedIff(ends.crypto, ends.master, ends.typed, d, ends.marshal(group), text);
  }

  lemma SealSucceeds(ends: Ends, group: seq<FeedItem>)
    requires ends.Agree()
    ensures ends.Seal()(group) == KeyPath.SealedBatch(ends.crypto, ends.master, ends.nonce(group), ends.marshal(group))
    ensures ends.Seal()(group).Some? && ends.Seal()(group).value != []
  {
    hide KeyPath.Primitives.IsIdeal, KeyPath.TrimSpace;
    KeyPath.SealedIsRead(ends.crypto, ends.master, ends.nonce(group), ends.marshal(group), "", "");
  }

  lemma NonceDoesNotMatter(ends: Ends, d: KeyPath.Draws, text: string)
    requires d == ends.draws.(nonce := d.nonce)
    ensures KeyPath.Opened(ends.crypto, ends.master, ends.typed, d, text)
         == KeyPath.Opened(ends.crypto, ends.master, ends.typed, ends.draws, text)
  {
    hide KeyPath.Unwrap, KeyPath.Issue, KeyPath.DecryptFeed, KeyPath.TrimSpace;
  }

  // A batch that does not exist adds nothing.
  lemma NoGroupArrives(ends: Ends, all: seq<FeedItem>, b: nat)
    requires ends.Agree() && IsBounded(Groups(all), ends.Seal()) && |Groups(all)| <= b <= MAX_INT
    ensures ends.Fetched(Generation(all, ends.Seal()), b) == []
  {
    hide Groups, IsBounded, Generation, IsPublishable, Client.Run, KeyPath.Opened, Line.Network;
    CacheOf(all, ends.Seal(), b);
    GenerationIsPublishable(all, ends.Seal());
    NothingThere(ends.setup, Generation(all, ends.Seal()), b, ends.lines(b), 0, Client.START);
  }

  function Arrived(ends: Ends, cache: batchmap): (groups: seq<seq<FeedItem>>)
    ensures |groups| == BATCHES && forall b :: 0 <= b < BATCHES ==> groups[b] == ends.Fetched(cache, b)
  {
    seq(BATCHES, b requires 0 <= b => ends.Fetched(cache, b))
  }

  lemma FewGroups(all: seq<FeedItem>)
    requires |all| <= MAX_ITEMS
    ensures |Groups(all)| <= BATCHES && Flatten(Groups(all)) == all
  {
    if all != [] {
      PiecesCount(all, BATCH_SIZE, BATCHES);
      PiecesCut(all, BATCH_SIZE);
    }
  }

  // What arrives: the groups, and nothing for the batches that do not exist.
  lemma ArrivedIs(ends: Ends, all: seq<FeedItem>)
    requires ends.Agree() && |all| <= MAX_ITEMS && IsBounded(Groups(all), ends.Seal())
    requires AllArriveWhole(ends, all)
    ensures |Groups(all)| <= BATCHES
    ensures Arrived(ends, Generation(all, ends.Seal())) == Groups(all) + Empties(BATCHES - |Groups(all)|)
  {
    hide Groups, IsBounded, Generation, AllFit, Flatten, Ends.Agree, Ends.Fetched;
    FewGroups(all);
    forall b | 0 <= b < BATCHES
      ensures ends.Fetched(Generation(all, ends.Seal()), b) == if b < |Groups(all)| then Groups(all)[b] else []
    {
      if b < |Groups(all)| {
        GroupArrives(ends, all, b);
      } else {
        NoGroupArrives(ends, all, b);
      }
    }
  }

  function Empties(n: nat): (e: seq<seq<FeedItem>>)
    ensures |e| == n && forall k :: 0 <= k < n ==> e[k] == []
  {
    seq(n, k => [])
  }

  // Every batch that exists fits.
  predicate AllArriveWhole(ends: Ends, all: seq<FeedItem>)
    requires IsBounded(Groups(all), ends.Seal())
  {
    forall b | 0 <= b < |Groups(all)| ::
      AllFit(ends.setup, Generation(all, ends.Seal()), b)
      && |Lookup(Generation(all, ends.Seal()), b)| <= Client.MAX_ARRAY_LENGTH
  }

  lemma {:induction false} FlattenEmpties(groups: seq<seq<FeedItem>>, n: nat)
    ensures Flatten(groups + Empties(n)) == Flatten(groups)
    decreases |groups| + n
  {
    var all := groups + Empties(n);
    if groups != [] {
      assert all[1..] == groups[1..] + Empties(n);
      FlattenEmpties(groups[1..], n);
    } else if n > 0 {
      assert all[1..] == [] + Empties(n - 1);
      FlattenEmpties([], n - 1);
    }
  }

  lemma EmptiesHaveNoKeys(groups: seq<seq<FeedItem>>, n: nat)
    ensures HaveDistinctKeys(groups + Empties(n)) <==> HaveDistinctKeys(groups)
  {
    var all := groups + Empties(n);
    assert forall g :: 0 <= g < |groups| ==> all[g] == groups[g];
    assert forall g :: |groups| <= g < |all| ==> Keys(all[g]) == {};
  }

  // From end to end: at most a hundred posts in batches that fit, each batch fetched and
  // merged, in any order and with repeats, end with exactly the keys of the posts; and
  // with exactly the posts, whatever the order, if and only if no two batches share a key.
  lemma FeedArrives(ends: Ends, all: seq<FeedItem>)
    requires ends.Agree() && |all| <= MAX_ITEMS && IsBounded(Groups(all), ends.Seal())
    requires AllArriveWhole(ends, all)
    ensures var groups := Arrived(ends, Generation(all, ends.Seal()));
      && (forall order | IsComplete(groups, order) :: Keys(MergeAll([], groups, order)) == Keys(all))
      && ((forall order | IsComplete(groups, order) :: multiset(MergeAll([], groups, order)) == multiset(all))
          <==> HaveDistinctKeys(Groups(all)))
  {
    hide Groups, IsBounded, Generation, Keys, Flatten, Ends.Agree, Ends.Fetched, MergeAll, Arrived, AllArriveWhole;
    hide HaveDistinctKeys;
    var groups := Arrived(ends, Generation(all, ends.Seal()));
    FewGroups(all);
    ArrivedIs(ends, all);
    FlattenEmpties(Groups(all), BATCHES - |Groups(all)|);
    EmptiesHaveNoKeys(Groups(all), BATCHES - |Groups(all)|);
    forall order | IsComplete(groups, order)
      ensures Keys(MergeAll([], groups, order)) == Keys(all)
    {
      MergedKeys(groups, order);
    }
    MergeLosesNothingIff(groups);
  }

  // ---- A cache that rotates ----

  // Every generation's batch is one of the sealed texts.
  ghost predicate IsSealed(p: KeyPath.Primitives, master: string, batch: nat, history: seq<batchmap>,
                           nonces: seq<seq<byte>>, jsons: seq<string>) {
    && |nonces| == |jsons| == |history|
    && forall g :: 0 <= g < |history| ==>
         && |nonces[g]| == 12 && KeyPath.WithoutMark(jsons[g]) == jsons[g]
         && KeyPath.SealedBatch(p, master, nonces[g], jsons[g]).Some?
         && Lookup(history[g], batch) == ChunksOf(KeyPath.SealedBatch(p, master, nonces[g], jsons[g]).value)
  }

  // Of all mixtures of the generations the key opens only what was sealed.
  ghost predicate OpensOnlySealed(p: KeyPath.Primitives, master: string, batch: nat, history: seq<batchmap>,
                                  nonces: seq<seq<byte>>, jsons: seq<string>) {
    forall picks, text ::
      Rotation.IsAssembly(history, batch, picks, text) && IsUnsealed(p, master, text) ==>
        exists g :: 0 <= g < |jsons| && g < |nonces|
          && Base64Url.Decode(text) == KeyPath.SealedBatch(p, master, nonces[g], jsons[g])
  }

  predicate IsUnsealed(p: KeyPath.Primitives, master: string, text: string) {
    match Base64Url.Decode(text)
    case None => false
    case Some(raw) =>
      |raw| >= 13 && p.unseal(p.digest(p.utf8(KeyPath.ClientKey(master))), raw[..12], raw[12..]).Some?
  }

  // Over every run of publications and rounds: whatever the client assembles, it reads the
  // text of one published generation or nothing.
  lemma RotatedBatchIsRead(setup: Setup, batch: nat, generation: batchmap, es: seq<Rotation.Event>,
                           p: KeyPath.Primitives, master: string, typed: string, d: KeyPath.Draws,
                           nonces: seq<seq<byte>>, jsons: seq<string>)
    requires setup.Valid() && batch <= MAX_INT && IsPublishable(generation)
    requires Rotation.IsRun(setup, batch, Rotation.Init(generation), es)
    requires p.IsIdeal() && KeyPath.DoesNotCollide(p, master, typed, d.salt)
    requires var history := Rotation.After(setup, Rotation.Init(generation), es).history;
      IsSealed(p, master, batch, history, nonces, jsons) && OpensOnlySealed(p, master, batch, history, nonces, jsons)
    ensures var c := Rotation.After(setup, Rotation.Init(generation), es).client;
      c.Done? ==>
        var shown := KeyPath.Opened(p, master, typed, d, c.ciphertext);
        shown.None? || (shown.value in jsons && KeyPath.IsSameToken(typed) && KeyPath.IsSameKey(p, master))
  {
    hide Rotation.IsRun, Rotation.After, Rotation.IsAssembly, ChunksOf, KeyPath.SealedBatch, KeyPath.Opened;
    hide KeyPath.IsSameToken, KeyPath.IsSameKey, KeyPath.DoesNotCollide, KeyPath.Primitives.IsIdeal, IsPublishable;
    var t := Rotation.After(setup, Rotation.Init(generation), es);
    Rotation.RotationSafety(setup, batch, generation, es);
    if t.client.Done? && KeyPath.Opened(p, master, typed, d, t.client.ciphertext).Some? {
      var text := t.client.ciphertext;
      KeyPath.OpenedIsUnsealed(p, master, typed, d, text);
      assert IsUnsealed(p, master, text);
      var g :| 0 <= g < |jsons| && g < |nonces|
               && Base64Url.Decode(text) == KeyPath.SealedBatch(p, master, nonces[g], jsons[g]);
      KeyPath.OpenedIff(p, master, typed, d.(nonce := nonces[g]), jsons[g], text);
      SameOpened(p, master, typed, d, nonces[g], text);
    }
  }

  lemma SameOpened(p: KeyPath.Primitives, master: string, typed: string, d: KeyPath.Draws, nonce: seq<byte>, text: string)
    ensures KeyPath.Opened(p, master, typed, d.(nonce := nonce), text) == KeyPath.Opened(p, master, typed, d, text)
  {
    hide KeyPath.Unwrap, KeyPath.Issue, KeyPath.DecryptFeed, KeyPath.TrimSpace;
  }
}
