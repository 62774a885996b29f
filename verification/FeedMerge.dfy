/** The client's feed: batches merged into the list of posts as they arrive. */
module FeedMerge {
  import opened Chunking

  datatype FeedItem = FeedItem(source: string, text: string, time: string)

  // The key that posts are told apart by: `${source}-${time}`.
  function Key(p: FeedItem): string {
    p.source + "-" + p.time
  }

  // Posts of one source share a key exactly when their times are equal; so do any two
  // posts whose times are equally long only if source and time are equal.
  lemma SameKeyIff(p: FeedItem, q: FeedItem)
    ensures p.source == q.source ==> (Key(p) == Key(q) <==> p.time == q.time)
    ensures |p.time| == |q.time| ==> (Key(p) == Key(q) <==> p.source == q.source && p.time == q.time)
  {
    assert Key(p)[..|p.source|] == p.source && Key(q)[..|q.source|] == q.source;
    assert Key(p)[|p.source| + 1..] == p.time && Key(q)[|q.source| + 1..] == q.time;
  }

  // Times of different lengths can make one key with different sources.
  lemma KeysCanCollide()
    ensures Key(FeedItem("a-b", "x", "c")) == Key(FeedItem("a", "y", "b-c"))
  {
  }

  function Keys(items: seq<FeedItem>): set<string> {
    set p | p in items :: Key(p)
  }

  function Without(items: seq<FeedItem>, existing: set<string>): seq<FeedItem> {
    if items == [] then []
    else if Key(items[0]) in existing then Without(items[1..], existing)
    else [items[0]] + Without(items[1..], existing)
  }

  // The update of `setFeed`: what was there, then the new posts whose key was not.
  function Merge(prev: seq<FeedItem>, parsed: seq<FeedItem>): seq<FeedItem> {
    prev + Without(parsed, Keys(prev))
  }

  // Batches merged in the order in which they arrive.
  function MergeAll(feed: seq<FeedItem>, groups: seq<seq<FeedItem>>, order: seq<nat>): seq<FeedItem>
    requires forall k :: 0 <= k < |order| ==> order[k] < |groups|
    decreases |order|
  {
    if order == [] then feed else MergeAll(Merge(feed, groups[order[0]]), groups, order[1..])
  }

  lemma {:induction false} WithoutKeys(items: seq<FeedItem>, existing: set<string>)
    ensures Keys(Without(items, existing)) == Keys(items) - existing
    ensures forall p :: p in Without(items, existing) ==> p in items
  {
    if items != [] {
      WithoutKeys(items[1..], existing);
      assert Keys(items) == {Key(items[0])} + Keys(items[1..]);
      KeysConcat([items[0]], Without(items[1..], existing));
      assert Keys([items[0]]) == {Key(items[0])};
    } else {
      assert Keys(items) == {};
    }
  }

  lemma KeysConcat(a: seq<FeedItem>, b: seq<FeedItem>)
    ensures Keys(a + b) == Keys(a) + Keys(b)
  {
  }

  lemma {:induction false} WithoutAll(items: seq<FeedItem>, existing: set<string>)
    requires Keys(items) <= existing
    ensures Without(items, existing) == []
  {
    if items != [] {
      assert Key(items[0]) in Keys(items);
      assert Keys(items[1..]) <= Keys(items);
      WithoutAll(items[1..], existing);
    }
  }

  lemma {:induction false} WithoutNone(items: seq<FeedItem>, existing: set<string>)
    requires Keys(items) !! existing
    ensures Without(items, existing) == items
  {
    if items != [] {
      assert Key(items[0]) in Keys(items);
      assert Keys(items[1..]) <= Keys(items);
      WithoutNone(items[1..], existing);
    }
  }

  // A merge keeps what was there, adds exactly the missing keys, and changes nothing
  // when repeated.
  lemma MergeAdds(prev: seq<FeedItem>, parsed: seq<FeedItem>)
    ensures prev <= Merge(prev, parsed)
    ensures Keys(Merge(prev, parsed)) == Keys(prev) + Keys(parsed)
    ensures Keys(parsed) <= Keys(prev) ==> Merge(prev, parsed) == prev
    ensures Merge(Merge(prev, parsed), parsed) == Merge(prev, parsed)
  {
    WithoutKeys(parsed, Keys(prev));
    KeysConcat(prev, Without(parsed, Keys(prev)));
    WithoutAll(parsed, Keys(Merge(prev, parsed)));
    if Keys(parsed) <= Keys(prev) {
      WithoutAll(parsed, Keys(prev));
    }
  }

  lemma {:induction false} WithoutConcat(a: seq<FeedItem>, b: seq<FeedItem>, existing: set<string>)
    ensures Without(a + b, existing) == Without(a, existing) + Without(b, existing)
  {
    if a == [] {
      assert a + b == b;
    } else {
      assert (a + b)[1..] == a[1..] + b;
      WithoutConcat(a[1..], b, existing);
    }
  }

  lemma WithoutOne(p: FeedItem, existing: set<string>)
    ensures Without([p], existing) == if Key(p) in existing then [] else [p]
  {
    assert [p][1..] == [];
  }

  // Of the new posts each is appended in its place exactly when its key was not there.
  lemma MergeInOrder(prev: seq<FeedItem>, a: seq<FeedItem>, p: FeedItem, b: seq<FeedItem>)
    ensures Merge(prev, a + [p] + b)
         == prev + Without(a, Keys(prev)) + (if Key(p) in Keys(prev) then [] else [p]) + Without(b, Keys(prev))
  {
    hide Without, Keys, Key;
    WithoutConcat(a + [p], b, Keys(prev));
    WithoutConcat(a, [p], Keys(prev));
    WithoutOne(p, Keys(prev));
  }

  // ---- All batches of one generation, in any order, with repeats ----

  ghost predicate IsComplete(groups: seq<seq<FeedItem>>, order: seq<nat>) {
    && (forall k :: 0 <= k < |order| ==> order[k] < |groups|)
    && (forall g :: 0 <= g < |groups| ==> g in order)
  }

  // The keys of the batches in the order.
  function KeysIn(groups: seq<seq<FeedItem>>, order: seq<nat>): set<string>
    requires forall k :: 0 <= k < |order| ==> order[k] < |groups|
  {
    if order == [] then {} else Keys(groups[order[0]]) + KeysIn(groups, order[1..])
  }

  lemma {:induction false} MergeAllKeys(feed: seq<FeedItem>, groups: seq<seq<FeedItem>>, order: seq<nat>)
    requires forall k :: 0 <= k < |order| ==> order[k] < |groups|
    ensures Keys(MergeAll(feed, groups, order)) == Keys(feed) + KeysIn(groups, order)
    ensures feed <= MergeAll(feed, groups, order)
    decreases |order|
  {
    if order != [] {
      MergeAdds(feed, groups[order[0]]);
      MergeAllKeys(Merge(feed, groups[order[0]]), groups, order[1..]);
    }
  }

  lemma {:induction false} KeysInComplete(groups: seq<seq<FeedItem>>, order: seq<nat>, key: string)
    requires forall k :: 0 <= k < |order| ==> order[k] < |groups|
    ensures key in KeysIn(groups, order) <==> exists g :: 0 <= g < |groups| && g in order && key in Keys(groups[g])
    decreases |order|
  {
    if order != [] {
      KeysInComplete(groups, order[1..], key);
      if key in Keys(groups[order[0]]) {
        assert order[0] in order;
      }
      if g :| 0 <= g < |groups| && g in order[1..] && key in Keys(groups[g]) {
        assert g in order;
      }
    }
  }

  lemma {:induction false} KeysOfFlatten(groups: seq<seq<FeedItem>>, key: string)
    ensures key in Keys(Flatten(groups)) <==> exists g :: 0 <= g < |groups| && key in Keys(groups[g])
  {
    if groups != [] {
      KeysOfFlatten(groups[1..], key);
      KeysConcat(groups[0], Flatten(groups[1..]));
      if g :| 0 <= g < |groups| && key in Keys(groups[g]) {
        if g > 0 {
          assert groups[1..][g - 1] == groups[g];
        }
      }
    }
  }

  // The feed ends with exactly the keys of the generation.
  lemma MergedKeys(groups: seq<seq<FeedItem>>, order: seq<nat>)
    requires IsComplete(groups, order)
    ensures Keys(MergeAll([], groups, order)) == Keys(Flatten(groups))
  {
    MergeAllKeys([], groups, order);
    forall key
      ensures key in Keys(MergeAll([], groups, order)) <==> key in Keys(Flatten(groups))
    {
      KeysInComplete(groups, order, key);
      KeysOfFlatten(groups, key);
    }
  }

  // ---- When no post is lost ----

  ghost predicate HaveDistinctKeys(groups: seq<seq<FeedItem>>) {
    forall g, h :: 0 <= g < h < |groups| ==> Keys(groups[g]) !! Keys(groups[h])
  }

  // The groups merged so far.
  function Seen(groups: seq<seq<FeedItem>>, seen: set<nat>, n: nat): multiset<FeedItem>
    requires n <= |groups|
  {
    if n == 0 then multiset{}
    else Seen(groups, seen, n - 1) + (if n - 1 in seen then multiset(groups[n - 1]) else multiset{})
  }

  lemma {:induction false} SeenMore(groups: seq<seq<FeedItem>>, seen: set<nat>, g: nat, n: nat)
    requires n <= |groups| && g !in seen && g < |groups|
    ensures Seen(groups, seen + {g}, n)
         == Seen(groups, seen, n) + (if g < n then multiset(groups[g]) else multiset{})
  {
    if n > 0 {
      SeenMore(groups, seen, g, n - 1);
    }
  }

  lemma SeenStep(groups: seq<seq<FeedItem>>, seen: set<nat>, n: nat)
    requires 0 < n <= |groups| && n - 1 in seen
    ensures Seen(groups, seen, n) == Seen(groups, seen, n - 1) + multiset(groups[n - 1])
  {
  }

  lemma MultisetConcat(a: seq<FeedItem>, b: seq<FeedItem>)
    ensures multiset(a + b) == multiset(a) + multiset(b)
  {
  }

  lemma {:induction false} SeenAll(groups: seq<seq<FeedItem>>, seen: set<nat>, n: nat)
    requires n <= |groups| && forall g :: 0 <= g < n ==> g in seen
    ensures Seen(groups, seen, n) == multiset(Flatten(groups[..n]))
  {
    if n == 0 {
      assert groups[..0] == [];
    } else {
      hide Flatten, Seen;
      SeenAll(groups, seen, n - 1);
      SeenStep(groups, seen, n);
      FlattenSnoc(groups, n - 1);
      MultisetConcat(Flatten(groups[..n - 1]), groups[n - 1]);
    }
  }

  lemma {:induction false} SeenNone(groups: seq<seq<FeedItem>>, n: nat)
    requires n <= |groups|
    ensures Seen(groups, {}, n) == multiset{}
  {
    if n > 0 {
      SeenNone(groups, n - 1);
    }
  }

  lemma {:induction false} FlattenSnoc<T>(parts: seq<seq<T>>, n: nat)
    requires n < |parts|
    ensures Flatten(parts[..n + 1]) == Flatten(parts[..n]) + parts[n]
  {
    if n == 0 {
      assert parts[..1] == [parts[0]] && parts[..1][1..] == [];
      assert parts[..0] == [];
    } else {
      FlattenSnoc(parts[1..], n - 1);
      assert parts[1..][..n] == parts[..n + 1][1..];
      assert parts[1..][..n - 1] == parts[..n][1..];
    }
  }

  // With the groups in seen merged, the feed holds exactly their posts.
  ghost predicate HoldsExactly(feed: seq<FeedItem>, groups: seq<seq<FeedItem>>, seen: set<nat>) {
    && multiset(feed) == Seen(groups, seen, |groups|)
    && (forall key :: key in Keys(feed) <==> exists g :: 0 <= g < |groups| && g in seen && key in Keys(groups[g]))
  }

  lemma MergeIs(feed: seq<FeedItem>, group: seq<FeedItem>)
    ensures Merge(feed, group) == feed + Without(group, Keys(feed))
  {
  }

  lemma MergeHoldsExactly(feed: seq<FeedItem>, groups: seq<seq<FeedItem>>, seen: set<nat>, g: nat)
    requires HaveDistinctKeys(groups) && HoldsExactly(feed, groups, seen) && g < |groups|
    ensures HoldsExactly(Merge(feed, groups[g]), groups, seen + {g})
  {
    hide Merge, Without, Seen, Keys;
    MergeAdds(feed, groups[g]);
    MergeIs(feed, groups[g]);
    if g in seen {
      assert Keys(groups[g]) <= Keys(feed);
      assert seen + {g} == seen;
    } else {
      assert Keys(groups[g]) !! Keys(feed);
      WithoutNone(groups[g], Keys(feed));
      SeenMore(groups, seen, g, |groups|);
    }
  }

  lemma {:induction false} MergeAllHoldsExactly(feed: seq<FeedItem>, groups: seq<seq<FeedItem>>,
                                                seen: set<nat>, order: seq<nat>)
    requires HaveDistinctKeys(groups) && HoldsExactly(feed, groups, seen)
    requires forall k :: 0 <= k < |order| ==> order[k] < |groups|
    ensures HoldsExactly(MergeAll(feed, groups, order), groups, seen + (set g | g in order))
    decreases |order|
  {
    if order == [] {
      assert seen + (set g | g in order) == seen;
    } else {
      hide HoldsExactly, HaveDistinctKeys, Merge;
      MergeHoldsExactly(feed, groups, seen, order[0]);
      MergeAllHoldsExactly(Merge(feed, groups[order[0]]), groups, seen + {order[0]}, order[1..]);
      assert seen + {order[0]} + (set g | g in order[1..]) == seen + (set g | g in order);
    }
  }

  function Count(items: seq<FeedItem>, key: string): nat {
    if items == [] then 0 else (if Key(items[0]) == key then 1 else 0) + Count(items[1..], key)
  }

  lemma {:induction false} CountConcat(a: seq<FeedItem>, b: seq<FeedItem>, key: string)
    ensures Count(a + b, key) == Count(a, key) + Count(b, key)
  {
    if a == [] {
      assert a + b == b;
    } else {
      assert (a + b)[1..] == a[1..] + b;
      CountConcat(a[1..], b, key);
    }
  }

  lemma RemoveAt(t: seq<FeedItem>, i: nat)
    requires i < |t|
    ensures multiset(t[..i] + t[i + 1..]) == multiset(t) - multiset{t[i]}
  {
    assert t == t[..i] + ([t[i]] + t[i + 1..]);
  }

  lemma {:induction false} CountOfMultiset(s: seq<FeedItem>, t: seq<FeedItem>, key: string)
    requires multiset(s) == multiset(t)
    ensures Count(s, key) == Count(t, key)
  {
    if s == [] {
      assert multiset(t) == multiset{};
      assert t == [];
    } else {
      assert s[0] in multiset(t);
      var i :| 0 <= i < |t| && t[i] == s[0];
      var rest := t[..i] + t[i + 1..];
      assert t == t[..i] + ([t[i]] + t[i + 1..]);
      RemoveAt(s, 0);
      RemoveAt(t, i);
      assert s[..0] + s[1..] == s[1..];
      CountOfMultiset(s[1..], rest, key);
      CountConcat(t[..i], t[i + 1..], key);
      CountConcat(t[..i], [t[i]] + t[i + 1..], key);
    }
  }

  lemma {:induction false} CountWithout(items: seq<FeedItem>, existing: set<string>, key: string)
    requires key in existing
    ensures Count(Without(items, existing), key) == 0
  {
    if items != [] {
      CountWithout(items[1..], existing, key);
    }
  }

  // Once a key is in the feed, no further post with it gets in.
  lemma {:induction false} MergeAllKeepsCount(feed: seq<FeedItem>, groups: seq<seq<FeedItem>>, order: seq<nat>, key: string)
    requires forall k :: 0 <= k < |order| ==> order[k] < |groups|
    requires key in Keys(feed)
    ensures Count(MergeAll(feed, groups, order), key) == Count(feed, key)
    decreases |order|
  {
    if order != [] {
      var next := Merge(feed, groups[order[0]]);
      CountConcat(feed, Without(groups[order[0]], Keys(feed)), key);
      CountWithout(groups[order[0]], Keys(feed), key);
      MergeAdds(feed, groups[order[0]]);
      MergeAllKeepsCount(next, groups, order[1..], key);
    }
  }

  lemma {:induction false} CountPositive(items: seq<FeedItem>, key: string)
    ensures Count(items, key) > 0 <==> key in Keys(items)
  {
    if items != [] {
      CountPositive(items[1..], key);
      KeysConcat([items[0]], items[1..]);
      assert items == [items[0]] + items[1..];
      assert Keys([items[0]]) == {Key(items[0])};
    }
  }

  lemma {:induction false} CountFlatten(groups: seq<seq<FeedItem>>, g: nat, h: nat, key: string)
    requires g < h < |groups|
    ensures Count(Flatten(groups), key) >= Count(groups[g], key) + Count(groups[h], key)
  {
    CountConcat(groups[0], Flatten(groups[1..]), key);
    if g > 0 {
      CountFlatten(groups[1..], g - 1, h - 1, key);
    } else {
      CountFlattenOne(groups[1..], h - 1, key);
    }
  }

  lemma {:induction false} CountFlattenOne(groups: seq<seq<FeedItem>>, h: nat, key: string)
    requires h < |groups|
    ensures Count(Flatten(groups), key) >= Count(groups[h], key)
  {
    CountConcat(groups[0], Flatten(groups[1..]), key);
    if h > 0 {
      CountFlattenOne(groups[1..], h - 1, key);
    }
  }

  ghost predicate LosesNothing(groups: seq<seq<FeedItem>>) {
    forall order :: IsComplete(groups, order) ==>
      multiset(MergeAll([], groups, order)) == multiset(Flatten(groups))
  }

  // Every order of arrival ends with exactly the posts of the generation, repeats of a
  // batch included, if and only if no two batches share a key.
  lemma MergeLosesNothingIff(groups: seq<seq<FeedItem>>)
    ensures LosesNothing(groups) <==> HaveDistinctKeys(groups)
  {
    if HaveDistinctKeys(groups) {
      forall order | IsComplete(groups, order)
        ensures multiset(MergeAll([], groups, order)) == multiset(Flatten(groups))
      {
        NothingLost(groups, order);
      }
    } else {
      var g, h :| 0 <= g < h < |groups| && !(Keys(groups[g]) !! Keys(groups[h]));
      SharedKeyLoses(groups, g, h);
    }
  }

  lemma NothingLost(groups: seq<seq<FeedItem>>, order: seq<nat>)
    requires HaveDistinctKeys(groups) && IsComplete(groups, order)
    ensures multiset(MergeAll([], groups, order)) == multiset(Flatten(groups))
  {
    SeenNone(groups, |groups|);
    MergeAllHoldsExactly([], groups, {}, order);
    SeenAll(groups, {} + (set g | g in order), |groups|);
    assert groups[..|groups|] == groups;
  }

  lemma SharedKeyLoses(groups: seq<seq<FeedItem>>, g: nat, h: nat)
    requires g < h < |groups| && !(Keys(groups[g]) !! Keys(groups[h]))
    ensures !LosesNothing(groups)
  {
    var key :| key in Keys(groups[g]) && key in Keys(groups[h]);
    var order: seq<nat> := [g] + seq(|groups|, k => k);
    assert IsComplete(groups, order) by {
      forall k | 0 <= k < |groups| ensures k in order {
        assert order[k + 1] == k;
      }
    }
    WithoutNone(groups[g], Keys([]));
    assert Merge([], groups[g]) == groups[g];
    MergeAllKeepsCount(groups[g], groups, order[1..], key);
    var merged := MergeAll([], groups, order);
    assert Count(merged, key) == Count(groups[g], key);
    CountPositive(groups[h], key);
    CountFlatten(groups, g, h, key);
    if multiset(merged) == multiset(Flatten(groups)) {
      CountOfMultiset(merged, Flatten(groups), key);
      assert false;
    }
  }
}
