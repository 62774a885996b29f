/**
 Two generations with equally many parts: when a fetch can end with a text that neither
 of them had.
 */
module TwoGenerations {
  import opened Wrappers
  import opened Text
  import opened Decimal
  import opened Chunking
  import opened Response
  import opened Exchange
  import opened Rotation
  import opened Mixtures
  import Client

  // Two parts at least are not the same.
  ghost predicate DifferTwice(a: seq<string>, b: seq<string>) {
    exists i, j :: 0 <= i < j < |a| && j < |b| && a[i] != b[i] && a[j] != b[j]
  }

  // A fetch during which b replaces a ends with a text of neither.
  ghost predicate CanMix(setup: Setup, batch: nat, a: batchmap, b: batchmap) {
    exists es, text :: IsRun(setup, batch, Init(a), es) && EndsWith(After(setup, Init(a), es), [a, b], text)
      && text != Concat(Lookup(a, batch)) && text != Concat(Lookup(b, batch))
  }

  function Parts(gens: seq<batchmap>, batch: nat, picks: seq<nat>): seq<string>
    requires forall j :: 0 <= j < |picks| ==> picks[j] < |gens|
  {
    seq(|picks|, j requires 0 <= j < |picks| => PartOf(gens[picks[j]], batch, j))
  }

  lemma PickedParts(a: batchmap, b: batchmap, batch: nat, picks: seq<nat>)
    requires IsMixture([a, b], batch, picks, |picks|) && |Lookup(a, batch)| == |Lookup(b, batch)| && picks != []
    ensures |picks| == |Lookup(a, batch)|
    ensures forall j :: 0 <= j < |picks| ==>
              picks[j] < 2
              && PartOf([a, b][picks[j]], batch, j) == if picks[j] == 0 then Lookup(a, batch)[j] else Lookup(b, batch)[j]
  {
    assert |Lookup([a, b][picks[0]], batch)| == |picks|;
  }

  // Picked from lists that differ in one place at most, the parts are those of one list.
  lemma NoMix(a: batchmap, b: batchmap, batch: nat, picks: seq<nat>)
    requires IsMixture([a, b], batch, picks, |picks|) && |Lookup(a, batch)| == |Lookup(b, batch)|
    requires picks != [] && !DifferTwice(Lookup(a, batch), Lookup(b, batch))
    ensures var text := Mixture([a, b], batch, picks);
      text == Concat(Lookup(a, batch)) || text == Concat(Lookup(b, batch))
  {
    var (x, y) := (Lookup(a, batch), Lookup(b, batch));
    var parts := Parts([a, b], batch, picks);
    PickedParts(a, b, batch, picks);
    hide IsMixture;
    if i :| 0 <= i < |x| && x[i] != y[i] {
      assert forall j :: 0 <= j < |x| && j != i ==> x[j] == y[j];
      assert parts == if picks[i] == 0 then x else y;
    } else {
      assert parts == x;
    }
  }

  // The first i + 1 parts of a, then those of b.
  function Switch(n: nat, i: nat): (picks: seq<nat>)
    ensures |picks| == n && forall j :: 0 <= j < n ==> picks[j] == if j <= i then 0 else 1
  {
    seq(n, j => if j <= i then 0 else 1)
  }

  // Full parts but for a nonempty last: a cut of what they join to.
  lemma PartsAreCut(parts: seq<string>, x: seq<string>, y: seq<string>, s: string, t: string, i: nat)
    requires x == Pieces(s, MAX_TXT_CHUNK_LEN) && y == Pieces(t, MAX_TXT_CHUNK_LEN) && i + 1 < |x| == |y| == |parts|
    requires forall j :: 0 <= j < |parts| ==> parts[j] == if j <= i then x[j] else y[j]
    ensures parts == Pieces(Concat(parts), MAX_TXT_CHUNK_LEN)
  {
    hide Pieces, Flatten, Concat;
    PiecesCut(s, MAX_TXT_CHUNK_LEN);
    PiecesCut(t, MAX_TXT_CHUNK_LEN);
    TwoPieces(t);
    FlattenIsConcat(parts);
    assert IsCut(parts, Flatten(parts), MAX_TXT_CHUNK_LEN);
    CutUnique(parts, Flatten(parts), MAX_TXT_CHUNK_LEN);
  }

  lemma TwoPieces(t: string)
    requires |Pieces(t, MAX_TXT_CHUNK_LEN)| >= 2
    ensures t != ""
  {
  }

  lemma MixDiffers(a: batchmap, b: batchmap, batch: nat, s: string, t: string, i: nat, j: nat)
    requires Lookup(a, batch) == Pieces(s, MAX_TXT_CHUNK_LEN) && Lookup(b, batch) == Pieces(t, MAX_TXT_CHUNK_LEN)
    requires i < j < |Lookup(a, batch)| == |Lookup(b, batch)|
    requires Lookup(a, batch)[i] != Lookup(b, batch)[i] && Lookup(a, batch)[j] != Lookup(b, batch)[j]
    ensures var text := Mixture([a, b], batch, Switch(|Lookup(a, batch)|, i));
      text != Concat(Lookup(a, batch)) && text != Concat(Lookup(b, batch))
  {
    hide Pieces, Concat;
    var (x, y) := (Lookup(a, batch), Lookup(b, batch));
    var picks := Switch(|x|, i);
    var parts := Parts([a, b], batch, picks);
    assert forall k :: 0 <= k < |parts| ==> parts[k] == if k <= i then x[k] else y[k];
    PartsAreCut(parts, x, y, s, t, i);
    ConcatPieces(s, MAX_TXT_CHUNK_LEN);
    ConcatPieces(t, MAX_TXT_CHUNK_LEN);
    assert parts[i] != y[i] && parts[j] != x[j];
  }

  lemma SwitchIsAssembly(a: batchmap, b: batchmap, batch: nat, i: nat)
    requires i < |Lookup(a, batch)| == |Lookup(b, batch)|
    ensures var picks := Switch(|Lookup(a, batch)|, i);
      IsAssembly([a, b], batch, picks, Mixture([a, b], batch, picks))
  {
    hide Concat;
    var picks := Switch(|Lookup(a, batch)|, i);
    assert forall j :: 0 <= j < |picks| ==> HasPart([a, b][picks[j]], batch, |picks|, j);
  }

  // For two generations cut into equally many parts that all get through: a fetch can end
  // with a text of neither if and only if they differ in at least two parts.
  lemma CanMixIff(setup: Setup, batch: nat, a: batchmap, b: batchmap, s: string, t: string)
    requires setup.Valid() && batch <= MAX_INT && IsPublishable(a) && IsPublishable(b)
    requires Lookup(a, batch) == Pieces(s, MAX_TXT_CHUNK_LEN) && Lookup(b, batch) == Pieces(t, MAX_TXT_CHUNK_LEN)
    requires |Lookup(a, batch)| == |Lookup(b, batch)| <= Client.MAX_ARRAY_LENGTH
    requires forall g, j :: g in [a, b] && 0 <= j < |Lookup(a, batch)| ==>
               IsDeliverable(setup, batch, |Lookup(a, batch)|, j, PartOf(g, batch, j))
    ensures CanMix(setup, batch, a, b) <==> DifferTwice(Lookup(a, batch), Lookup(b, batch))
  {
    hide IsDeliverable, IsPublishable, IsRun, After, Pieces, Concat, Mixture, IsMixture, PartOf;
    var gens := [a, b];
    if es, text :| IsRun(setup, batch, Init(a), es) && EndsWith(After(setup, Init(a), es), gens, text)
                   && text != Concat(Lookup(a, batch)) && text != Concat(Lookup(b, batch)) {
      RotationSafety(setup, batch, a, es);
      if !DifferTwice(Lookup(a, batch), Lookup(b, batch)) {
        NoMix(a, b, batch, After(setup, Init(a), es).picks);
        assert false;
      }
    }
    if i, j :| 0 <= i < j < |Lookup(a, batch)| && Lookup(a, batch)[i] != Lookup(b, batch)[i]
               && Lookup(a, batch)[j] != Lookup(b, batch)[j] {
      var picks := Switch(|Lookup(a, batch)|, i);
      MixDiffers(a, b, batch, s, t, i, j);
      SwitchIsAssembly(a, b, batch, i);
      assert GetThrough(setup, gens, batch, picks, |picks|) by {
        forall k | 0 <= k < |picks|
          ensures picks[k] < |gens| && IsDeliverable(setup, batch, |picks|, k, PartOf(gens[picks[k]], batch, k))
        {
          assert gens[picks[k]] in [a, b];
        }
      }
      var es := MixtureReachable(setup, batch, gens, picks);
      assert EndsWith(After(setup, Init(a), es), gens, Mixture(gens, batch, picks));
    }
  }
}
