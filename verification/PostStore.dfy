/** The server's post store: the tables `posts` and `cursors`. */
module PostStore {
  import opened Timestamps
  import Text

  datatype Post = Post(source: string, text: string, pubDate: string)

  datatype Row = Row(id: nat, post: Post, fetchedAt: string)

  // What is hashed for the unique column; the hash is taken to be injective.
  function HashInput(p: Post): string {
    p.source + [0 as char] + p.text
  }

  function Hashes(rows: seq<Row>): set<string> {
    set r | r in rows :: HashInput(r.post)
  }

  datatype Tables = Tables(rows: seq<Row>, nextId: nat, cursors: map<string, string>)

  // INSERT OR IGNORE.
  function InsertOne(t: Tables, p: Post, now: string): Tables {
    if HashInput(p) in Hashes(t.rows) then t
    else t.(rows := t.rows + [Row(t.nextId, p, now)], nextId := t.nextId + 1)
  }

  function InsertAll(t: Tables, posts: seq<Post>, now: string): Tables
    decreases |posts|
  {
    if posts == [] then t
    else InsertOne(InsertAll(t, posts[..|posts| - 1], now), posts[|posts| - 1], now)
  }

  function CursorOf(t: Tables, source: string): string {
    if source in t.cursors then t.cursors[source] else ""
  }

  function KeepFrom(rows: seq<Row>, cutoff: string): seq<Row> {
    if rows == [] then []
    else if Less(rows[0].fetchedAt, cutoff) then KeepFrom(rows[1..], cutoff)
    else [rows[0]] + KeepFrom(rows[1..], cutoff)
  }

  // DELETE ... WHERE fetched_at < cutoff.
  function PruneTables(t: Tables, cutoff: string): Tables {
    t.(rows := KeepFrom(t.rows, cutoff))
  }

  class Store {
    var tables: Tables

    constructor ()
      ensures tables == Tables([], 1, map[])
    {
      tables := Tables([], 1, map[]);
    }

    // The number of rows inserted is the number of posts that are new.
    method InsertBatch(posts: seq<Post>, now: string) returns (inserted: nat)
      modifies this
      ensures tables == InsertAll(old(tables), posts, now)
      ensures inserted == |tables.rows| - |old(tables).rows|
    {
      inserted := 0;
      if |posts| == 0 {
        return;
      }
      var i := 0;
      while i < |posts|
        invariant 0 <= i <= |posts|
        invariant tables == InsertAll(old(tables), posts[..i], now)
        invariant inserted == |tables.rows| - |old(tables).rows|
      {
        assert posts[..i + 1][..i] == posts[..i];
        var before := tables;
        tables := InsertOne(tables, posts[i], now);
        inserted := inserted + (|tables.rows| - |before.rows|);
        i := i + 1;
      }
      assert posts[..|posts|] == posts;
    }

    function GetCursor(source: string): string
      reads this
    {
      CursorOf(tables, source)
    }

    method SetCursor(source: string, lastSeen: string)
      modifies this
      ensures tables == old(tables).(cursors := old(tables).cursors[source := lastSeen])
    {
      tables := tables.(cursors := tables.cursors[source := lastSeen]);
    }

    method Prune(cutoff: string) returns (n: nat)
      modifies this
      ensures tables == PruneTables(old(tables), cutoff)
      ensures n == |old(tables).rows| - |tables.rows|
    {
      KeepFromShorter(tables.rows, cutoff);
      n := |tables.rows| - |KeepFrom(tables.rows, cutoff)|;
      tables := PruneTables(tables, cutoff);
    }

    // The newest posts, by date and then by id.
    method Latest(limit: nat) returns (posts: seq<Post>)
      ensures posts == PostsOf(Newest(tables.rows, limit))
    {
      var sorted := Sorted(tables.rows);
      posts := [];
      var i := 0;
      while i < |sorted| && i < limit
        invariant 0 <= i <= |sorted| && i <= limit
        invariant posts == PostsOf(sorted[..i])
      {
        PostsOfSnoc(sorted, i);
        posts := posts + [sorted[i].post];
        i := i + 1;
      }
      SortedIsPermutation(tables.rows);
    }
  }

  lemma {:induction false} KeepFromShorter(rows: seq<Row>, cutoff: string)
    ensures |KeepFrom(rows, cutoff)| <= |rows|
  {
    if rows != [] {
      KeepFromShorter(rows[1..], cutoff);
    }
  }

  // ---- Inserting ----

  // What a batch adds, and what it leaves alone.
  lemma {:induction false} InsertAllHashes(t: Tables, posts: seq<Post>, now: string)
    ensures Hashes(InsertAll(t, posts, now).rows) == Hashes(t.rows) + (set p | p in posts :: HashInput(p))
    ensures t.rows <= InsertAll(t, posts, now).rows && InsertAll(t, posts, now).cursors == t.cursors
    ensures forall r :: r in InsertAll(t, posts, now).rows && r !in t.rows ==> r.post in posts && r.fetchedAt == now
  {
    InsertAllAddsHashes(t, posts, now);
    InsertAllAddsRows(t, posts, now);
  }

  lemma {:induction false} InsertAllAddsHashes(t: Tables, posts: seq<Post>, now: string)
    ensures Hashes(InsertAll(t, posts, now).rows) == Hashes(t.rows) + (set p | p in posts :: HashInput(p))
    decreases |posts|
  {
    if posts != [] {
      hide HashInput, Hashes;
      var init, last := posts[..|posts| - 1], posts[|posts| - 1];
      InsertAllAddsHashes(t, init, now);
      assert posts == init + [last];
      assert (set p | p in posts :: HashInput(p)) == (set p | p in init :: HashInput(p)) + {HashInput(last)};
      HashesSnoc(InsertAll(t, init, now).rows, Row(InsertAll(t, init, now).nextId, last, now));
    }
  }

  lemma {:induction false} InsertAllAddsRows(t: Tables, posts: seq<Post>, now: string)
    ensures t.rows <= InsertAll(t, posts, now).rows && InsertAll(t, posts, now).cursors == t.cursors
    ensures forall r :: r in InsertAll(t, posts, now).rows && r !in t.rows ==> r.post in posts && r.fetchedAt == now
    decreases |posts|
  {
    if posts != [] {
      hide HashInput, Hashes;
      InsertAllAddsRows(t, posts[..|posts| - 1], now);
    }
  }

  lemma HashesSnoc(rows: seq<Row>, r: Row)
    ensures Hashes(rows + [r]) == Hashes(rows) + {HashInput(r.post)}
  {
  }

  // Posts that are all there already change nothing.
  lemma {:induction false} InsertKnown(t: Tables, posts: seq<Post>, now: string)
    requires forall p :: p in posts ==> HashInput(p) in Hashes(t.rows)
    ensures InsertAll(t, posts, now) == t
    decreases |posts|
  {
    if posts != [] {
      InsertKnown(t, posts[..|posts| - 1], now);
    }
  }

  // No two rows share a hash.
  ghost predicate HasUniqueHashes(rows: seq<Row>) {
    forall i, j :: 0 <= i < j < |rows| ==> HashInput(rows[i].post) != HashInput(rows[j].post)
  }

  lemma {:induction false} InsertAllUnique(t: Tables, posts: seq<Post>, now: string)
    requires HasUniqueHashes(t.rows)
    ensures HasUniqueHashes(InsertAll(t, posts, now).rows)
    decreases |posts|
  {
    if posts != [] {
      InsertAllUnique(t, posts[..|posts| - 1], now);
    }
  }

  // ---- Pruning ----

  // With fetch times of the one form, pruning removes exactly the rows fetched before
  // the cutoff, and keeps the others in order.
  lemma {:induction false} PruneByTime(rows: seq<Row>, times: seq<DateTime>, cutoff: DateTime)
    requires |times| == |rows| && cutoff.Valid() && cutoff.year <= 9999
    requires forall i :: 0 <= i < |rows| ==>
               times[i].Valid() && times[i].year <= 9999 && rows[i].fetchedAt == times[i].Format()
    ensures KeepFrom(rows, cutoff.Format()) == KeepSince(rows, times, cutoff.Seconds())
  {
    if rows != [] {
      FormatOrder(times[0], cutoff);
      PruneByTime(rows[1..], times[1..], cutoff);
    }
  }

  function KeepSince(rows: seq<Row>, times: seq<DateTime>, cutoff: nat): seq<Row>
    requires |times| == |rows| && forall i :: 0 <= i < |times| ==> times[i].Valid()
  {
    if rows == [] then []
    else (if times[0].Seconds() >= cutoff then [rows[0]] else []) + KeepSince(rows[1..], times[1..], cutoff)
  }

  // ---- The newest posts ----

  // ORDER BY pub_date DESC, id DESC
  predicate ComesFirst(a: Row, b: Row) {
    Less(b.post.pubDate, a.post.pubDate) || (a.post.pubDate == b.post.pubDate && a.id >= b.id)
  }

  function Place(r: Row, rows: seq<Row>): seq<Row> {
    if rows == [] || ComesFirst(r, rows[0]) then [r] + rows
    else [rows[0]] + Place(r, rows[1..])
  }

  function Sorted(rows: seq<Row>): seq<Row> {
    if rows == [] then [] else Place(rows[0], Sorted(rows[1..]))
  }

  function Newest(rows: seq<Row>, limit: nat): seq<Row> {
    var sorted := Sorted(rows);
    if |sorted| <= limit then sorted else sorted[..limit]
  }

  function PostsOf(rows: seq<Row>): (posts: seq<Post>)
    ensures |posts| == |rows|
  {
    seq(|rows|, i requires 0 <= i < |rows| => rows[i].post)
  }

  lemma PostsOfSnoc(rows: seq<Row>, i: nat)
    requires i < |rows|
    ensures PostsOf(rows[..i + 1]) == PostsOf(rows[..i]) + [rows[i].post]
  {
  }

  lemma {:induction false} PlaceIsPermutation(r: Row, rows: seq<Row>)
    ensures multiset(Place(r, rows)) == multiset{r} + multiset(rows)
  {
    if !(rows == [] || ComesFirst(r, rows[0])) {
      PlaceIsPermutation(r, rows[1..]);
      assert rows == [rows[0]] + rows[1..];
    }
  }

  lemma {:induction false} SortedIsPermutation(rows: seq<Row>)
    ensures multiset(Sorted(rows)) == multiset(rows)
    ensures |Sorted(rows)| == |rows|
  {
    if rows != [] {
      SortedIsPermutation(rows[1..]);
      PlaceIsPermutation(rows[0], Sorted(rows[1..]));
      assert rows == [rows[0]] + rows[1..];
    }
    assert |multiset(Sorted(rows))| == |multiset(rows)|;
  }

  ghost predicate IsSorted(rows: seq<Row>) {
    forall i, j :: 0 <= i < j < |rows| ==> ComesFirst(rows[i], rows[j])
  }

  lemma ComesFirstTotal(a: Row, b: Row)
    ensures ComesFirst(a, b) || ComesFirst(b, a)
  {
    LessTotal(a.post.pubDate, b.post.pubDate);
  }

  lemma ComesFirstTransitive(a: Row, b: Row, c: Row)
    requires ComesFirst(a, b) && ComesFirst(b, c)
    ensures ComesFirst(a, c)
  {
    if Less(b.post.pubDate, a.post.pubDate) && Less(c.post.pubDate, b.post.pubDate) {
      LessTransitive(c.post.pubDate, b.post.pubDate, a.post.pubDate);
    }
  }

  lemma {:induction false} PlaceSorted(r: Row, rows: seq<Row>)
    requires IsSorted(rows)
    ensures IsSorted(Place(r, rows))
  {
    if rows == [] {
    } else if ComesFirst(r, rows[0]) {
      forall j | 0 <= j < |rows| ensures ComesFirst(r, rows[j]) {
        if j > 0 { ComesFirstTransitive(r, rows[0], rows[j]); }
      }
    } else {
      PlaceSorted(r, rows[1..]);
      ComesFirstTotal(r, rows[0]);
      var tail := Place(r, rows[1..]);
      forall j | 0 <= j < |tail| ensures ComesFirst(rows[0], tail[j]) {
        PlaceIsPermutation(r, rows[1..]);
        assert tail[j] in multiset(tail);
        if tail[j] != r {
          var k :| 0 <= k < |rows[1..]| && rows[1..][k] == tail[j];
          assert rows[k + 1] == tail[j];
        }
      }
    }
  }

  lemma {:induction false} SortedSorts(rows: seq<Row>)
    ensures IsSorted(Sorted(rows))
  {
    if rows != [] {
      SortedSorts(rows[1..]);
      PlaceSorted(rows[0], Sorted(rows[1..]));
    }
  }

  // The limit's worth of rows, in order, and none left out comes before one returned.
  lemma NewestAreNewest(rows: seq<Row>, limit: nat)
    ensures var out := Newest(rows, limit);
      && |out| == (if |rows| <= limit then |rows| else limit)
      && IsSorted(out)
      && exists rest: seq<Row> :: multiset(out) + multiset(rest) == multiset(rows)
                     && forall a, b :: a in out && b in rest ==> ComesFirst(a, b)
  {
    hide Sorted, ComesFirst;
    SortedIsPermutation(rows);
    SortedSorts(rows);
    var sorted, out := Sorted(rows), Newest(rows, limit);
    var rest := sorted[|out|..];
    assert sorted == out + rest;
    forall a, b | a in out && b in rest
      ensures ComesFirst(a, b)
    {
      var i :| 0 <= i < |out| && out[i] == a;
      var j :| 0 <= j < |rest| && rest[j] == b;
      assert sorted[i] == a && sorted[|out| + j] == b;
    }
    assert multiset(out) + multiset(rest) == multiset(rows);
  }

  // In time: no post left out is later than one returned, and of two of one moment the one
  // stored later is returned first.
  lemma NewestInTime(rows: seq<Row>, limit: nat, when: Row -> DateTime)
    requires forall r :: r in rows ==> when(r).Valid() && r.post.pubDate == when(r).Format()
    requires forall a, b :: a in rows && b in rows ==> YearsCompare(when(a).year, when(b).year)
    ensures var out := Newest(rows, limit);
      && (forall i, j :: 0 <= i < j < |out| ==> IsNoEarlier(out[i], out[j], when))
      && exists rest: seq<Row> :: multiset(out) + multiset(rest) == multiset(rows)
                     && forall a, b :: a in out && b in rest ==> IsNoEarlier(a, b, when)
  {
    hide Newest, ComesFirst, DateTime.Format, DateTime.Seconds, DateTime.Valid, YearsCompare;
    NewestAreNewest(rows, limit);
    var out := Newest(rows, limit);
    var rest: seq<Row> :| multiset(out) + multiset(rest) == multiset(rows)
                          && forall a, b :: a in out && b in rest ==> ComesFirst(a, b);
    forall a | a in out || a in rest ensures a in rows {
      assert a in multiset(out) + multiset(rest);
    }
    forall a, b | a in rows && b in rows && ComesFirst(a, b) ensures IsNoEarlier(a, b, when) {
      FirstIsNoEarlier(a, b, when);
    }
  }

  ghost predicate IsNoEarlier(a: Row, b: Row, when: Row -> DateTime) {
    when(a).Valid() && when(b).Valid()
    && (when(b).Seconds() < when(a).Seconds() || (when(a) == when(b) && a.id >= b.id))
  }

  lemma FirstIsNoEarlier(a: Row, b: Row, when: Row -> DateTime)
    requires ComesFirst(a, b) && when(a).Valid() && when(b).Valid()
    requires a.post.pubDate == when(a).Format() && b.post.pubDate == when(b).Format()
    requires YearsCompare(when(a).year, when(b).year)
    ensures IsNoEarlier(a, b, when)
  {
    hide Less, DateTime.Format, DateTime.Seconds, YearsCompare;
    FormatOrderIff(when(a), when(b));
    if a.post.pubDate == b.post.pubDate {
      LessIrreflexive(a.post.pubDate);
      SameSeconds(when(a), when(b));
    }
  }

  // ---- What is a duplicate ----

  // Of two posts whose sources hold no zero character, one is a duplicate exactly when
  // source and text are the same, whatever their dates.
  lemma SameHashIff(p: Post, q: Post)
    requires 0 as char !in p.source && 0 as char !in q.source
    ensures HashInput(p) == HashInput(q) <==> p.source == q.source && p.text == q.text
  {
    var z := 0 as char;
    assert HashInput(p) == p.source + [z] + p.text && HashInput(q) == q.source + [z] + q.text;
    if HashInput(p) == HashInput(q) {
      Text.IndexOfConcat(p.source, z, p.text);
      Text.IndexOfConcat(q.source, z, q.text);
      assert HashInput(p)[..|p.source|] == p.source && HashInput(q)[..|q.source|] == q.source;
      assert HashInput(p)[|p.source| + 1..] == p.text && HashInput(q)[|q.source| + 1..] == q.text;
    }
  }

  // Ids count up, and none is given twice, pruned or not.
  ghost predicate IdsGrow(t: Tables) {
    && (forall i :: 0 <= i < |t.rows| ==> t.rows[i].id < t.nextId)
    && (forall i, j :: 0 <= i < j < |t.rows| ==> t.rows[i].id < t.rows[j].id)
  }

  lemma {:induction false} InsertAllIds(t: Tables, posts: seq<Post>, now: string)
    requires IdsGrow(t)
    ensures var u := InsertAll(t, posts, now);
      IdsGrow(u) && t.nextId <= u.nextId && |u.rows| - |t.rows| == u.nextId - t.nextId
      && t.rows <= u.rows && forall i :: |t.rows| <= i < |u.rows| ==> u.rows[i].id == t.nextId + (i - |t.rows|)
    decreases |posts|
  {
    if posts != [] {
      InsertAllIds(t, posts[..|posts| - 1], now);
    }
  }

  lemma {:induction false} KeptRows(rows: seq<Row>, cutoff: string)
    ensures forall r :: r in KeepFrom(rows, cutoff) <==> r in rows && !Less(r.fetchedAt, cutoff)
  {
    hide Less;
    if rows != [] {
      KeptRows(rows[1..], cutoff);
      assert rows == [rows[0]] + rows[1..];
    }
  }

  lemma {:induction false} PruneIds(t: Tables, cutoff: string)
    requires IdsGrow(t)
    ensures IdsGrow(PruneTables(t, cutoff)) && PruneTables(t, cutoff).nextId == t.nextId
    decreases |t.rows|
  {
    hide Less;
    if t.rows != [] {
      var rest := t.(rows := t.rows[1..]);
      assert forall i :: 0 <= i < |rest.rows| ==> rest.rows[i] == t.rows[i + 1];
      PruneIds(rest, cutoff);
      KeptRows(rest.rows, cutoff);
      var kept := KeepFrom(rest.rows, cutoff);
      forall i | 0 <= i < |kept| ensures t.rows[0].id < kept[i].id {
        assert kept[i] in rest.rows;
      }
    }
  }

  // The first of the posts with a new hash is the one that is stored.
  lemma {:induction false} FirstIsStored(t: Tables, posts: seq<Post>, now: string, k: nat)
    requires k < |posts| && HashInput(posts[k]) !in Hashes(t.rows)
    requires forall j :: 0 <= j < k ==> HashInput(posts[j]) != HashInput(posts[k])
    ensures exists r :: r in InsertAll(t, posts, now).rows && r.post == posts[k]
    decreases |posts|
  {
    hide HashInput;
    var init := posts[..|posts| - 1];
    var before := InsertAll(t, init, now);
    if k < |posts| - 1 {
      FirstIsStored(t, init, now, k);
      var r :| r in before.rows && r.post == posts[k];
      assert r in InsertAll(t, posts, now).rows;
    } else {
      InsertAllAddsHashes(t, init, now);
      assert forall p :: p in init ==> exists j :: 0 <= j < k && posts[j] == p;
      var r := Row(before.nextId, posts[k], now);
      assert InsertAll(t, posts, now).rows == before.rows + [r];
      assert (before.rows + [r])[|before.rows|] == r;
    }
  }
}
