/**
 Feed ingestion: one source at a time as a method, and rounds of up to ten concurrent
 ingests as interleaved steps.  Every database call succeeds.
 */
module Ingest {
  import opened Wrappers
  import opened Text
  import opened Timestamps
  import opened PostStore

  datatype Item = Item(source: string, text: string, time: string)

  // A Telegram channel yields its last message, any other source a list of items.
  datatype Fetched = Failed | Message(item: Item) | Items(items: seq<Item>)

  predicate IsTelegram(src: string) {
    HasPrefix(src, "@") || ('/' !in src && !HasPrefix(src, "http"))
  }

  predicate IsFetchOf(src: string, f: Fetched) {
    match f
    case Failed => true
    case Message(_) => IsTelegram(src)
    case Items(items) => !IsTelegram(src) && items != []
  }

  function ToPost(it: Item): Post {
    Post(it.source, it.text, it.time)
  }

  // The posts to insert and the newest of their dates.
  datatype Selection = Selection(posts: seq<Post>, newest: string)

  predicate IsNew(cursor: string, it: Item) {
    cursor == "" || Less(cursor, it.time)
  }

  function SelectItems(cursor: string, items: seq<Item>): Selection {
    if items == [] then Selection([], "")
    else
      var s, it := SelectItems(cursor, items[..|items| - 1]), items[|items| - 1];
      if IsNew(cursor, it) then Selection(s.posts + [ToPost(it)], if Less(s.newest, it.time) then it.time else s.newest)
      else s
  }

  function Select(cursor: string, f: Fetched): Selection {
    match f
    case Failed => Selection([], "")
    case Message(it) =>
      if it.text != "" && Less(cursor, it.time) then Selection([ToPost(it)], it.time) else Selection([], "")
    case Items(items) => SelectItems(cursor, items)
  }

  // What an undisturbed ingest makes of the tables.
  function IngestTables(t: Tables, src: string, f: Fetched, now: string): Tables {
    var cursor := CursorOf(t, src);
    var s := Select(cursor, f);
    if s.posts == [] then t else AdvanceCursor(InsertAll(t, s.posts, now), src, cursor, s.newest)
  }

  function AdvanceCursor(t: Tables, src: string, cursor: string, newest: string): Tables {
    if Less(cursor, newest) then t.(cursors := t.cursors[src := newest]) else t
  }

  /** `ingestSource`, undisturbed. */
  method IngestSource(st: Store, src: string, f: Fetched, now: string)
    requires IsFetchOf(src, f)
    modifies st
    ensures st.tables == IngestTables(old(st.tables), src, f, now)
  {
    var cursor := st.GetCursor(src);
    var posts: seq<Post> := [];
    var newest := "";
    if IsTelegram(src) {
      if f.Message? && f.item.text != "" && Less(cursor, f.item.time) {
        posts := [ToPost(f.item)];
        newest := f.item.time;
      }
    } else {
      if f.Failed? {
        return;
      }
      var i := 0;
      while i < |f.items|
        invariant 0 <= i <= |f.items|
        invariant Selection(posts, newest) == SelectItems(cursor, f.items[..i])
      {
        var it := f.items[i];
        assert f.items[..i + 1][..i] == f.items[..i];
        if cursor == "" || Less(cursor, it.time) {
          posts := posts + [ToPost(it)];
          if Less(newest, it.time) {
            newest := it.time;
          }
        }
        i := i + 1;
      }
      assert f.items[..|f.items|] == f.items;
    }
    if |posts| == 0 {
      return;
    }
    var n := st.InsertBatch(posts, now);
    InsertAllHashes(old(st.tables), posts, now);
    if Less(cursor, newest) {
      st.SetCursor(src, newest);
    }
  }

  // ---- What is selected ----

  function ToItem(p: Post): Item {
    Item(p.source, p.text, p.pubDate)
  }

  lemma {:induction false} SelectedItems(cursor: string, items: seq<Item>)
    ensures var s := SelectItems(cursor, items);
      forall p :: p in s.posts <==> ToItem(p) in items && IsNew(cursor, ToItem(p))
    ensures forall p :: p in SelectItems(cursor, items).posts ==> AtMost(p.pubDate, SelectItems(cursor, items).newest)
  {
    if items != [] {
      var init, it := items[..|items| - 1], items[|items| - 1];
      var before, s := SelectItems(cursor, init), SelectItems(cursor, items);
      SelectedItems(cursor, init);
      assert items == init + [it];
      assert ToItem(ToPost(it)) == it;
      forall p | p in s.posts
        ensures AtMost(p.pubDate, s.newest)
      {
        if p in before.posts {
          NewestCovers(before.newest, p.pubDate, it.time);
        }
        LessIrreflexive(it.time);
        LessTotal(before.newest, it.time);
      }
    }
  }

  lemma NewestCovers(newest: string, date: string, time: string)
    requires AtMost(date, newest)
    ensures Less(newest, time) ==> AtMost(date, time)
  {
    if Less(newest, time) {
      AtMostLess(date, newest, time);
      LessTotal(date, time);
    }
  }

  // Every selected post is newer than the cursor, unless there is none, and no newer
  // than the newest.
  ghost predicate IsSound(cursor: string, s: Selection) {
    forall p :: p in s.posts ==> (cursor == "" || Less(cursor, p.pubDate)) && AtMost(p.pubDate, s.newest)
  }

  lemma SelectIsSound(cursor: string, f: Fetched)
    ensures IsSound(cursor, Select(cursor, f))
  {
    if f.Items? {
      SelectedItems(cursor, f.items);
    } else if f.Message? {
      LessIrreflexive(f.item.time);
    }
  }

  // The newest date is that of a selected post, or empty when no selected post has one.
  lemma {:induction false} NewestIsSelected(cursor: string, items: seq<Item>)
    ensures var s := SelectItems(cursor, items);
      s.newest != "" ==> exists p :: p in s.posts && p.pubDate == s.newest
    ensures SelectItems(cursor, items).posts == [] ==> SelectItems(cursor, items).newest == ""
  {
    if items != [] {
      var (init, it) := (items[..|items| - 1], items[|items| - 1]);
      NewestIsSelected(cursor, init);
      var (before, s) := (SelectItems(cursor, init), SelectItems(cursor, items));
      assert IsNew(cursor, it) ==> ToPost(it) in s.posts;
      assert forall p :: p in before.posts ==> p in s.posts;
    }
  }

  // A message is selected exactly when it has a text and is newer than the cursor.
  lemma MessageSelected(cursor: string, it: Item)
    ensures Select(cursor, Message(it))
         == if it.text != "" && Less(cursor, it.time) then Selection([Post(it.source, it.text, it.time)], it.time)
            else Selection([], "")
  {
  }

  lemma CursorMoves(t: Tables, src: string, cursor: string, newest: string)
    requires CursorOf(t, src) == cursor
    ensures var u := AdvanceCursor(t, src, cursor, newest);
      && AtMost(newest, CursorOf(u, src)) && (CursorOf(u, src) == cursor || (CursorOf(u, src) == newest && newest != ""))
      && (forall other :: other != src ==> CursorOf(u, other) == CursorOf(t, other))
      && u.rows == t.rows
  {
    LessIrreflexive(newest);
  }

  // What an ingest is for: the cursor ends behind nothing that was selected, at the date
  // of a selected post or where it was, and every selected post is in the table.
  lemma IngestCatchesUp(t: Tables, src: string, f: Fetched, now: string)
    ensures var (s, u) := (Select(CursorOf(t, src), f), IngestTables(t, src, f, now));
      && (forall p :: p in s.posts ==> HashInput(p) in Hashes(u.rows) && AtMost(p.pubDate, CursorOf(u, src)))
      && (CursorOf(u, src) == CursorOf(t, src) || exists p :: p in s.posts && p.pubDate == CursorOf(u, src))
      && (forall other :: other != src ==> CursorOf(u, other) == CursorOf(t, other))
      && t.rows <= u.rows
  {
    var cursor := CursorOf(t, src);
    var s := Select(cursor, f);
    SelectIsSound(cursor, f);
    InsertAllHashes(t, s.posts, now);
    if f.Items? { NewestIsSelected(cursor, f.items); }
    CursorMoves(InsertAll(t, s.posts, now), src, cursor, s.newest);
    hide AtMost, Less, AdvanceCursor, Select, InsertAll;
    var u := IngestTables(t, src, f, now);
    forall p | p in s.posts
      ensures HashInput(p) in Hashes(u.rows) && AtMost(p.pubDate, CursorOf(u, src))
    {
      AtMostTransitive(p.pubDate, s.newest, CursorOf(u, src));
    }
  }

  // Which sources are channels: names that begin with an at sign, and names without a
  // slash that are no web addresses.
  lemma SourceKinds(rest: string)
    ensures IsTelegram("@" + rest) && !IsTelegram("http" + rest)
    ensures rest != "" && rest[0] != '@' && '/' in rest ==> !IsTelegram(rest)
    ensures rest != "" && rest[0] != 'h' && '/' !in rest ==> IsTelegram(rest)
  {
    assert ("@" + rest)[..1] == "@" && ("http" + rest)[..4] == "http" && ("http" + rest)[0] == 'h';
    assert HasPrefix("@" + rest, "@") && HasPrefix("http" + rest, "http");
    hide HasPrefix;
    PrefixBegins("http" + rest, "@");
    PrefixBegins(rest, "@");
    PrefixBegins(rest, "http");
  }

  lemma PrefixBegins(s: string, prefix: string)
    requires prefix != ""
    ensures HasPrefix(s, prefix) ==> s != "" && s[0] == prefix[0]
  {
  }

  // A feed that is fetched again unchanged inserts nothing, if no post was pruned in
  // between and the cursor did not go back, whatever else was inserted.
  lemma UnchangedFeedInsertsNothing(t: Tables, u: Tables, src: string, f: Fetched, now: string, later: string)
    requires f.Items?
    requires var first := IngestTables(t, src, f, now);
      Hashes(first.rows) <= Hashes(u.rows) && AtMost(CursorOf(first, src), CursorOf(u, src))
    ensures IngestTables(u, src, f, later).rows == u.rows
  {
    var c, d := CursorOf(t, src), CursorOf(u, src);
    var first := IngestTables(t, src, f, now);
    var s := Select(c, f);
    SelectedItems(c, f.items);
    SelectedItems(d, f.items);
    InsertAllHashes(t, s.posts, now);
    LessTotal(c, s.newest);
    assert AtMost(c, d) by {
      LessIrreflexive(c);
      assert AtMost(c, CursorOf(first, src));
      AtMostTransitive(c, CursorOf(first, src), d);
    }
    forall p | p in Select(d, f).posts
      ensures HashInput(p) in Hashes(u.rows)
    {
      var it := ToItem(p);
      if d != "" {
        AtMostLess(c, d, it.time);
      } else {
        EmptyIsLeast(c);
      }
      assert IsNew(c, it);
      assert p in s.posts;
      assert HashInput(p) in Hashes(InsertAll(t, s.posts, now).rows);
    }
    InsertKnown(u, Select(d, f).posts, later);
  }

  // ---- Rounds of concurrent ingests ----

  const MAX_CONCURRENT := 10

  datatype Worker =
    | Starting
    | WithCursor(cursor: string)
    | Selected(cursor: string, selection: Selection)
    | Stored(cursor: string, newest: string)
    | Returning            // the body is over, the slot still held
    | Leaving              // the slot given back, not yet counted off

  // The loop of `refreshCache`: the next source, whether it has been added to the wait
  // group without having got a slot yet, the slots in use, the wait group, the workers.
  datatype Round = Round(next: nat, announced: bool, slots: nat, waiting: nat, workers: map<nat, Worker>)

  datatype Batch = Batch(src: string, posts: seq<Post>)

  // log holds every batch ever inserted, in order.
  datatype System = System(tables: Tables, round: Option<Round>, log: seq<Batch>)

  datatype Step =
    | StartRound
    | Announce
    | Spawn
    | ReadCursor(i: nat)
    | Fetch(i: nat, f: Fetched)
    | Insert(i: nat, now: string)
    | Advance(i: nat)
    | Release(i: nat)
    | Depart(i: nat)
    | EndRound(cutoff: string)

  const EMPTY := System(Tables([], 1, map[]), None, [])

  predicate IsEnabled(sources: seq<string>, s: System, e: Step) {
    match s.round
    case None => e.StartRound?
    case Some(r) =>
      match e
      case StartRound => false
      case Announce => !r.announced && r.next < |sources|
      case Spawn => r.announced && r.slots < MAX_CONCURRENT
      case ReadCursor(i) => i in r.workers && i < |sources| && r.workers[i].Starting?
      case Fetch(i, f) => i in r.workers && i < |sources| && r.workers[i].WithCursor? && IsFetchOf(sources[i], f)
      case Insert(i, _) => i in r.workers && i < |sources| && r.workers[i].Selected?
      case Advance(i) => i in r.workers && i < |sources| && r.workers[i].Stored?
      case Release(i) => i in r.workers && r.workers[i].Returning? && r.slots > 0
      case Depart(i) => i in r.workers && r.workers[i].Leaving? && r.waiting > 0
      case EndRound(_) => !r.announced && r.next >= |sources| && r.waiting == 0
  }

  function SetWorker(s: System, i: nat, w: Worker): System
    requires s.round.Some?
  {
    s.(round := Some(s.round.value.(workers := s.round.value.workers[i := w])))
  }

  function Next(sources: seq<string>, s: System, e: Step): System
    requires IsEnabled(sources, s, e)
  {
    match e
    case StartRound => s.(round := Some(Round(0, false, 0, 0, map[])))
    case Announce =>
      var r := s.round.value;
      s.(round := Some(r.(announced := true, waiting := r.waiting + 1)))
    case Spawn =>
      var r := s.round.value;
      s.(round := Some(Round(r.next + 1, false, r.slots + 1, r.waiting, r.workers[r.next := Starting])))
    case ReadCursor(i) => SetWorker(s, i, WithCursor(CursorOf(s.tables, sources[i])))
    case Fetch(i, f) =>
      var cursor := s.round.value.workers[i].cursor;
      var sel := Select(cursor, f);
      SetWorker(s, i, if sel.posts == [] then Returning else Selected(cursor, sel))
    case Insert(i, now) =>
      var w := s.round.value.workers[i];
      SetWorker(s.(tables := InsertAll(s.tables, w.selection.posts, now),
                   log := s.log + [Batch(sources[i], w.selection.posts)]),
                i, Stored(w.cursor, w.selection.newest))
    case Advance(i) =>
      var w := s.round.value.workers[i];
      SetWorker(s.(tables := AdvanceCursor(s.tables, sources[i], w.cursor, w.newest)), i, Returning)
    case Release(i) =>
      var r := s.round.value;
      s.(round := Some(r.(slots := r.slots - 1, workers := r.workers[i := Leaving])))
    case Depart(i) =>
      var r := s.round.value;
      s.(round := Some(r.(waiting := r.waiting - 1, workers := r.workers - {i})))
    case EndRound(cutoff) => s.(tables := PruneTables(s.tables, cutoff), round := None)
  }

  ghost predicate IsRun(sources: seq<string>, s: System, es: seq<Step>)
    decreases |es|
  {
    es == [] || (IsEnabled(sources, s, es[0]) && IsRun(sources, Next(sources, s, es[0]), es[1..]))
  }

  function After(sources: seq<string>, s: System, es: seq<Step>): System
    requires IsRun(sources, s, es)
    decreases |es|
  {
    if es == [] then s else After(sources, Next(sources, s, es[0]), es[1..])
  }

  // The steps of one worker, with no other step between them, leave exactly what the
  // undisturbed ingest leaves.
  lemma AloneIsIngestTables(sources: seq<string>, s: System, i: nat, f: Fetched, now: string) returns (es: seq<Step>)
    requires s.round.Some? && i in s.round.value.workers && i < |sources| && s.round.value.workers[i].Starting?
    requires IsFetchOf(sources[i], f)
    ensures IsRun(sources, s, es) && After(sources, s, es).tables == IngestTables(s.tables, sources[i], f, now)
    ensures After(sources, s, es).round == Some(s.round.value.(workers := s.round.value.workers[i := Returning]))
    ensures es <= [ReadCursor(i), Fetch(i, f), Insert(i, now), Advance(i)]
  {
    hide Select, InsertAll, AdvanceCursor, CursorOf, IsTelegram;
    var s1 := Next(sources, s, ReadCursor(i));
    var s2 := Next(sources, s1, Fetch(i, f));
    var none := Select(CursorOf(s.tables, sources[i]), f).posts == [];
    es := [];
    if !none {
      var s3 := Next(sources, s2, Insert(i, now));
      var s4 := Next(sources, s3, Advance(i));
      es := StepFirst(sources, s3, Advance(i), es);
      es := StepFirst(sources, s2, Insert(i, now), es);
      assert s4.round.value.workers == s.round.value.workers[i := Returning];
    } else {
      assert s2.round.value.workers == s.round.value.workers[i := Returning];
    }
    es := StepFirst(sources, s1, Fetch(i, f), es);
    es := StepFirst(sources, s, ReadCursor(i), es);
  }

  lemma StepFirst(sources: seq<string>, s: System, e: Step, es: seq<Step>) returns (longer: seq<Step>)
    requires IsEnabled(sources, s, e) && IsRun(sources, Next(sources, s, e), es)
    ensures longer == [e] + es && IsRun(sources, s, longer)
    ensures After(sources, s, longer) == After(sources, Next(sources, s, e), es)
  {
    longer := [e] + es;
    assert longer[1..] == es;
  }

  // ---- The slots and the wait group ----

  function Active(workers: map<nat, Worker>): set<nat> {
    set i | i in workers && !workers[i].Leaving?
  }

  ghost predicate CountsHold(s: System) {
    s.round.Some? ==> RoundCounts(s.round.value)
  }

  ghost predicate RoundCounts(r: Round) {
    && r.slots == |Active(r.workers)| <= MAX_CONCURRENT
    && r.waiting == |r.workers.Keys| + (if r.announced then 1 else 0)
    && forall i :: i in r.workers ==> i < r.next
  }

  lemma SetWorkerCounts(r: Round, i: nat, w: Worker)
    requires RoundCounts(r) && i in r.workers && !r.workers[i].Leaving? && !w.Leaving?
    ensures RoundCounts(r.(workers := r.workers[i := w]))
  {
    assert Active(r.workers[i := w]) == Active(r.workers);
    assert r.workers[i := w].Keys == r.workers.Keys;
  }

  lemma SpawnCounts(r: Round)
    requires RoundCounts(r) && r.announced && r.slots < MAX_CONCURRENT
    ensures RoundCounts(Round(r.next + 1, false, r.slots + 1, r.waiting, r.workers[r.next := Starting]))
  {
    assert Active(r.workers[r.next := Starting]) == Active(r.workers) + {r.next};
    assert r.workers[r.next := Starting].Keys == r.workers.Keys + {r.next};
  }

  lemma ReleaseCounts(r: Round, i: nat)
    requires RoundCounts(r) && i in r.workers && !r.workers[i].Leaving? && r.slots > 0
    ensures RoundCounts(r.(slots := r.slots - 1, workers := r.workers[i := Leaving]))
  {
    assert Active(r.workers[i := Leaving]) == Active(r.workers) - {i};
    assert i in Active(r.workers);
    assert r.workers[i := Leaving].Keys == r.workers.Keys;
  }

  lemma DepartCounts(r: Round, i: nat)
    requires RoundCounts(r) && i in r.workers && r.workers[i].Leaving? && r.waiting > 0
    ensures RoundCounts(r.(waiting := r.waiting - 1, workers := r.workers - {i}))
  {
    assert Active(r.workers - {i}) == Active(r.workers);
    assert (r.workers - {i}).Keys == r.workers.Keys - {i};
  }

  lemma StepKeepsCounts(sources: seq<string>, s: System, e: Step)
    requires CountsHold(s) && IsEnabled(sources, s, e)
    ensures CountsHold(Next(sources, s, e))
  {
    hide RoundCounts, Select, AdvanceCursor, InsertAll, CursorOf;
    match e {
      case StartRound => NoWorkers();
      case Announce => AnnounceCounts(s.round.value);
      case Spawn => SpawnCounts(s.round.value);
      case Release(i) => ReleaseCounts(s.round.value, i);
      case Depart(i) => DepartCounts(s.round.value, i);
      case EndRound(_) =>
      case ReadCursor(i) => SetWorkerCounts(s.round.value, i, Next(sources, s, e).round.value.workers[i]);
      case Fetch(i, _) => SetWorkerCounts(s.round.value, i, Next(sources, s, e).round.value.workers[i]);
      case Insert(i, _) => SetWorkerCounts(s.round.value, i, Next(sources, s, e).round.value.workers[i]);
      case Advance(i) => SetWorkerCounts(s.round.value, i, Next(sources, s, e).round.value.workers[i]);
    }
  }

  lemma NoWorkers()
    ensures RoundCounts(Round(0, false, 0, 0, map[]))
  {
    assert Active(map[]) == {};
  }

  lemma AnnounceCounts(r: Round)
    requires RoundCounts(r) && !r.announced
    ensures RoundCounts(r.(announced := true, waiting := r.waiting + 1))
  {
  }

  lemma {:induction false} RunKeepsCounts(sources: seq<string>, s: System, es: seq<Step>)
    requires CountsHold(s) && IsRun(sources, s, es)
    ensures CountsHold(After(sources, s, es))
    decreases |es|
  {
    if es != [] {
      hide CountsHold, Next;
      StepKeepsCounts(sources, s, es[0]);
      RunKeepsCounts(sources, Next(sources, s, es[0]), es[1..]);
    }
  }

  // Over every run: at most ten ingests at once, and posts are pruned only when none
  // is in flight and every source has had its turn.
  lemma AtMostTenAndPruneAlone(sources: seq<string>, es: seq<Step>)
    requires IsRun(sources, EMPTY, es)
    ensures var s := After(sources, EMPTY, es);
      s.round.Some? ==>
        && |Active(s.round.value.workers)| <= 10
        && forall cutoff :: IsEnabled(sources, s, EndRound(cutoff)) ==>
             s.round.value.workers == map[] && s.round.value.next >= |sources|
  {
    RunKeepsCounts(sources, EMPTY, es);
    var s := After(sources, EMPTY, es);
    if s.round.Some? {
      assert s.round.value.waiting == 0 ==> s.round.value.workers.Keys == {};
    }
  }

  // ---- Cursors ----

  ghost predicate AreDistinct(sources: seq<string>) {
    forall i, j :: 0 <= i < j < |sources| ==> sources[i] != sources[j]
  }

  // The cursor a worker goes by is still its source's cursor, and what it selected with
  // it is sound.
  ghost predicate IsCurrent(t: Tables, src: string, w: Worker) {
    match w
    case WithCursor(cursor) => cursor == CursorOf(t, src)
    case Selected(cursor, sel) => cursor == CursorOf(t, src) && IsSound(cursor, sel)
    case Stored(cursor, _) => cursor == CursorOf(t, src)
    case _ => true
  }

  ghost predicate AboutToCover(sources: seq<string>, workers: map<nat, Worker>, i: nat, src: string, date: string) {
    i in workers && i < |sources| && sources[i] == src && workers[i].Stored? && AtMost(date, workers[i].newest)
  }

  // A post of a source is behind its cursor, or about to be.
  ghost predicate IsCovered(sources: seq<string>, s: System, src: string, date: string) {
    || AtMost(date, CursorOf(s.tables, src))
    || (s.round.Some? && exists i :: AboutToCover(sources, s.round.value.workers, i, src, date))
  }

  // A later batch of a source is strictly newer, unless neither post has a date.
  ghost predicate IsNewer(earlier: Batch, later: Batch) {
    forall p, q :: p in earlier.posts && q in later.posts && (p.pubDate != "" || q.pubDate != "") ==>
      Less(p.pubDate, q.pubDate)
  }

  ghost predicate Inv(sources: seq<string>, s: System) {
    && (s.round.Some? ==> forall i :: i in s.round.value.workers ==>
          i < s.round.value.next <= |sources| && IsCurrent(s.tables, sources[i], s.round.value.workers[i]))
    && (s.round.Some? ==> s.round.value.next + (if s.round.value.announced then 1 else 0) <= |sources|)
    && (forall k, p :: 0 <= k < |s.log| && p in s.log[k].posts ==> IsCovered(sources, s, s.log[k].src, p.pubDate))
    && (forall j, k :: 0 <= j < k < |s.log| && s.log[j].src == s.log[k].src ==> IsNewer(s.log[j], s.log[k]))
  }

  ghost predicate LogIsCovered(sources: seq<string>, s: System) {
    forall k, p :: 0 <= k < |s.log| && p in s.log[k].posts ==> IsCovered(sources, s, s.log[k].src, p.pubDate)
  }

  lemma InsertCovers(sources: seq<string>, s: System, i: nat, now: string)
    requires LogIsCovered(sources, s) && IsEnabled(sources, s, Insert(i, now))
    requires IsCurrent(s.tables, sources[i], s.round.value.workers[i])
    ensures LogIsCovered(sources, Next(sources, s, Insert(i, now)))
    ensures Next(sources, s, Insert(i, now)).tables.cursors == s.tables.cursors
  {
    var t := Next(sources, s, Insert(i, now));
    var (v, w) := (s.round.value.workers, t.round.value.workers);
    InsertAllHashes(s.tables, v[i].selection.posts, now);
    assert w[i] == Stored(v[i].cursor, v[i].selection.newest);
    forall k, p | 0 <= k < |t.log| && p in t.log[k].posts
      ensures IsCovered(sources, t, t.log[k].src, p.pubDate)
    {
      var src := t.log[k].src;
      if k < |s.log| {
        assert IsCovered(sources, s, s.log[k].src, p.pubDate);
        assert CursorOf(t.tables, src) == CursorOf(s.tables, src);
        if !AtMost(p.pubDate, CursorOf(s.tables, src)) {
          var x :| AboutToCover(sources, v, x, src, p.pubDate);
          assert AboutToCover(sources, w, x, src, p.pubDate);
        }
      } else {
        assert AboutToCover(sources, w, i, src, p.pubDate);
      }
    }
  }

  lemma InsertKeepsInv(sources: seq<string>, s: System, i: nat, now: string)
    requires AreDistinct(sources) && Inv(sources, s) && IsEnabled(sources, s, Insert(i, now))
    ensures Inv(sources, Next(sources, s, Insert(i, now)))
  {
    hide IsSound, IsCovered, IsNewer, AreDistinct;
    var t := Next(sources, s, Insert(i, now));
    var batch := Batch(sources[i], s.round.value.workers[i].selection.posts);
    InsertCovers(sources, s, i, now);
    assert forall x :: CursorOf(t.tables, x) == CursorOf(s.tables, x);
    assert t.log == s.log + [batch];
    forall j | 0 <= j < |s.log| && s.log[j].src == sources[i]
      ensures IsNewer(s.log[j], batch)
    {
      BehindCursor(sources, s, i, j);
    }
  }

  // While a source's worker has not stored, everything the source inserted is behind
  // its cursor, and what the worker selected is newer.
  lemma BehindCursor(sources: seq<string>, s: System, i: nat, j: nat)
    requires AreDistinct(sources) && Inv(sources, s) && s.round.Some?
    requires i in s.round.value.workers && i < |sources| && s.round.value.workers[i].Selected?
    requires j < |s.log| && s.log[j].src == sources[i]
    ensures IsNewer(s.log[j], Batch(sources[i], s.round.value.workers[i].selection.posts))
  {
    var w := s.round.value.workers[i];
    forall p, q | p in s.log[j].posts && q in w.selection.posts && (p.pubDate != "" || q.pubDate != "")
      ensures Less(p.pubDate, q.pubDate)
    {
      assert IsCovered(sources, s, sources[i], p.pubDate);
      assert AtMost(p.pubDate, w.cursor);
      if w.cursor == "" {
        EmptyIsLeast(p.pubDate);
        EmptyIsLeast(q.pubDate);
        LessTotal(p.pubDate, "");
      } else {
        AtMostLess(p.pubDate, w.cursor, q.pubDate);
      }
    }
  }

  lemma AdvanceMovesOn(sources: seq<string>, s: System, i: nat)
    requires IsEnabled(sources, s, Advance(i)) && IsCurrent(s.tables, sources[i], s.round.value.workers[i])
    ensures var (t, w) := (Next(sources, s, Advance(i)).tables, s.round.value.workers[i]);
      && (forall x :: AtMost(CursorOf(s.tables, x), CursorOf(t, x)))
      && (forall x :: x != sources[i] ==> CursorOf(t, x) == CursorOf(s.tables, x))
      && AtMost(w.newest, CursorOf(t, sources[i]))
  {
    var (t, w) := (Next(sources, s, Advance(i)).tables, s.round.value.workers[i]);
    LessTotal(w.cursor, w.newest);
    LessIrreflexive(w.newest);
    forall x ensures AtMost(CursorOf(s.tables, x), CursorOf(t, x)) {
      LessIrreflexive(CursorOf(s.tables, x));
    }
  }

  lemma AdvanceCovers(sources: seq<string>, s: System, i: nat)
    requires LogIsCovered(sources, s) && IsEnabled(sources, s, Advance(i))
    requires IsCurrent(s.tables, sources[i], s.round.value.workers[i])
    ensures LogIsCovered(sources, Next(sources, s, Advance(i)))
  {
    hide AtMost, CursorOf, AdvanceCursor;
    var t := Next(sources, s, Advance(i));
    var (v, w) := (s.round.value.workers, t.round.value.workers);
    AdvanceMovesOn(sources, s, i);
    forall k, p | 0 <= k < |t.log| && p in t.log[k].posts
      ensures IsCovered(sources, t, t.log[k].src, p.pubDate)
    {
      var src := t.log[k].src;
      assert IsCovered(sources, s, s.log[k].src, p.pubDate);
      if AtMost(p.pubDate, CursorOf(s.tables, src)) {
        AtMostTransitive(p.pubDate, CursorOf(s.tables, src), CursorOf(t.tables, src));
      } else {
        var x :| AboutToCover(sources, v, x, src, p.pubDate);
        if x != i {
          assert AboutToCover(sources, w, x, src, p.pubDate);
        } else {
          AtMostTransitive(p.pubDate, v[i].newest, CursorOf(t.tables, src));
        }
      }
    }
  }

  lemma AdvanceKeepsInv(sources: seq<string>, s: System, i: nat)
    requires AreDistinct(sources) && Inv(sources, s) && IsEnabled(sources, s, Advance(i))
    ensures Inv(sources, Next(sources, s, Advance(i)))
    ensures forall src :: AtMost(CursorOf(s.tables, src), CursorOf(Next(sources, s, Advance(i)).tables, src))
  {
    hide IsSound, IsCovered, IsNewer, AtMost, CursorOf, AdvanceCursor;
    AdvanceMovesOn(sources, s, i);
    AdvanceCovers(sources, s, i);
  }

  // A step that changes no cursor and no worker that has stored, and logs nothing.
  lemma StillCovered(sources: seq<string>, s: System, t: System)
    requires forall k, p :: 0 <= k < |s.log| && p in s.log[k].posts ==> IsCovered(sources, s, s.log[k].src, p.pubDate)
    requires t.log == s.log && t.tables.cursors == s.tables.cursors
    requires s.round.Some? ==> forall i :: i in s.round.value.workers && s.round.value.workers[i].Stored? ==>
               t.round.Some? && i in t.round.value.workers && t.round.value.workers[i] == s.round.value.workers[i]
    ensures forall k, p :: 0 <= k < |t.log| && p in t.log[k].posts ==> IsCovered(sources, t, t.log[k].src, p.pubDate)
  {
    forall k, p | 0 <= k < |t.log| && p in t.log[k].posts
      ensures IsCovered(sources, t, t.log[k].src, p.pubDate)
    {
      assert IsCovered(sources, s, s.log[k].src, p.pubDate);
      assert CursorOf(t.tables, t.log[k].src) == CursorOf(s.tables, t.log[k].src);
      if !AtMost(p.pubDate, CursorOf(s.tables, t.log[k].src)) {
        var x :| AboutToCover(sources, s.round.value.workers, x, t.log[k].src, p.pubDate);
        assert AboutToCover(sources, t.round.value.workers, x, t.log[k].src, p.pubDate);
      }
    }
  }

  // The workers stay as they are, or one moves on to something sound.
  ghost predicate WorkersAreCurrent(sources: seq<string>, s: System) {
    s.round.Some? ==> forall i :: i in s.round.value.workers ==>
      i < s.round.value.next <= |sources| && IsCurrent(s.tables, sources[i], s.round.value.workers[i])
  }

  lemma RoundStepKeepsWorkers(sources: seq<string>, s: System, e: Step)
    requires WorkersAreCurrent(sources, s) && CountsHold(s) && IsEnabled(sources, s, e)
    requires s.round.Some? ==> s.round.value.next + (if s.round.value.announced then 1 else 0) <= |sources|
    requires e.StartRound? || e.Announce? || e.Spawn? || e.EndRound?
    ensures var t := Next(sources, s, e);
      && WorkersAreCurrent(sources, t) && t.log == s.log && t.tables.cursors == s.tables.cursors
      && (t.round.Some? ==> t.round.value.next + (if t.round.value.announced then 1 else 0) <= |sources|)
      && (s.round.Some? ==> forall i :: i in s.round.value.workers && s.round.value.workers[i].Stored? ==>
            t.round.Some? && i in t.round.value.workers && t.round.value.workers[i] == s.round.value.workers[i])
  {
    if e.EndRound? {
      assert s.round.value.workers.Keys == {};
    }
  }

  lemma WorkerStepKeepsWorkers(sources: seq<string>, s: System, e: Step)
    requires WorkersAreCurrent(sources, s) && IsEnabled(sources, s, e)
    requires e.ReadCursor? || e.Fetch? || e.Release? || e.Depart?
    ensures var t := Next(sources, s, e);
      && WorkersAreCurrent(sources, t) && t.log == s.log && t.tables == s.tables
      && t.round.Some? && t.round.value.next == s.round.value.next && t.round.value.announced == s.round.value.announced
      && (forall i :: i in s.round.value.workers && s.round.value.workers[i].Stored? ==>
            i in t.round.value.workers && t.round.value.workers[i] == s.round.value.workers[i])
  {
    hide IsSound, Select;
    if e.Fetch? {
      SelectIsSound(s.round.value.workers[e.i].cursor, e.f);
    }
  }

  lemma OtherStepKeepsInv(sources: seq<string>, s: System, e: Step)
    requires AreDistinct(sources) && Inv(sources, s) && CountsHold(s) && IsEnabled(sources, s, e)
    requires !e.Insert? && !e.Advance?
    ensures Inv(sources, Next(sources, s, e))
    ensures Next(sources, s, e).tables.cursors == s.tables.cursors
  {
    hide IsCovered, IsCurrent, IsNewer, CountsHold, IsSound, AreDistinct;
    var t := Next(sources, s, e);
    assert WorkersAreCurrent(sources, s);
    if e.ReadCursor? || e.Fetch? || e.Release? || e.Depart? {
      WorkerStepKeepsWorkers(sources, s, e);
    } else {
      RoundStepKeepsWorkers(sources, s, e);
    }
    hide Next, IsEnabled;
    StillCovered(sources, s, t);
  }

  lemma StepKeepsInv(sources: seq<string>, s: System, e: Step)
    requires AreDistinct(sources) && Inv(sources, s) && CountsHold(s) && IsEnabled(sources, s, e)
    ensures Inv(sources, Next(sources, s, e)) && CountsHold(Next(sources, s, e))
    ensures forall src :: AtMost(CursorOf(s.tables, src), CursorOf(Next(sources, s, e).tables, src))
  {
    hide Inv, CountsHold, AreDistinct;
    StepKeepsCounts(sources, s, e);
    if e.Insert? {
      InsertKeepsInv(sources, s, e.i, e.now);
      InsertAllHashes(s.tables, s.round.value.workers[e.i].selection.posts, e.now);
    } else if e.Advance? {
      AdvanceKeepsInv(sources, s, e.i);
    } else {
      OtherStepKeepsInv(sources, s, e);
    }
    if !e.Advance? {
      forall src ensures AtMost(CursorOf(s.tables, src), CursorOf(Next(sources, s, e).tables, src)) {
        LessIrreflexive(CursorOf(s.tables, src));
      }
    }
  }

  lemma {:induction false} RunKeepsInv(sources: seq<string>, s: System, es: seq<Step>)
    requires AreDistinct(sources) && Inv(sources, s) && CountsHold(s) && IsRun(sources, s, es)
    ensures Inv(sources, After(sources, s, es)) && CountsHold(After(sources, s, es))
    ensures forall src :: AtMost(CursorOf(s.tables, src), CursorOf(After(sources, s, es).tables, src))
    decreases |es|
  {
    if es == [] {
      forall src ensures AtMost(CursorOf(s.tables, src), CursorOf(s.tables, src)) {
        LessIrreflexive(CursorOf(s.tables, src));
      }
    } else {
      hide Inv, CountsHold, Next, AreDistinct;
      var t := Next(sources, s, es[0]);
      StepKeepsInv(sources, s, es[0]);
      RunKeepsInv(sources, t, es[1..]);
      forall src ensures AtMost(CursorOf(s.tables, src), CursorOf(After(sources, s, es).tables, src)) {
        AtMostTransitive(CursorOf(s.tables, src), CursorOf(t.tables, src), CursorOf(After(sources, t, es[1..]).tables, src));
      }
    }
  }

  ghost predicate IsInFlight(sources: seq<string>, s: System, src: string) {
    s.round.Some? && exists i :: i in s.round.value.workers && i < |sources| && sources[i] == src
  }

  // Over every run of distinct sources: whatever a source ever inserted is no newer than
  // its cursor whenever no ingest of it is in flight, and a post with a date that the
  // source inserted once, pruned since or not, is never inserted by it again: every date
  // of a later batch is newer, and once a dated post was inserted no dateless one follows.
  lemma IngestSafety(sources: seq<string>, es: seq<Step>)
    requires AreDistinct(sources) && IsRun(sources, EMPTY, es)
    ensures var s := After(sources, EMPTY, es);
      && (forall k, p :: 0 <= k < |s.log| && p in s.log[k].posts && !IsInFlight(sources, s, s.log[k].src) ==>
            AtMost(p.pubDate, CursorOf(s.tables, s.log[k].src)))
      && (forall j, k :: 0 <= j < k < |s.log| && s.log[j].src == s.log[k].src ==> IsNewer(s.log[j], s.log[k]))
  {
    RunKeepsInv(sources, EMPTY, es);
    var s := After(sources, EMPTY, es);
    forall k, p | 0 <= k < |s.log| && p in s.log[k].posts && !IsInFlight(sources, s, s.log[k].src)
      ensures AtMost(p.pubDate, CursorOf(s.tables, s.log[k].src))
    {
      assert IsCovered(sources, s, s.log[k].src, p.pubDate);
    }
  }

  // No cursor goes back in the course of a run.
  ghost predicate CursorsNeverDecrease(sources: seq<string>) {
    forall a, b, src | IsRun(sources, EMPTY, a) && IsRun(sources, After(sources, EMPTY, a), b) ::
      AtMost(CursorOf(After(sources, EMPTY, a).tables, src),
             CursorOf(After(sources, After(sources, EMPTY, a), b).tables, src))
  }

  lemma DistinctSourcesKeepCursors(sources: seq<string>)
    requires AreDistinct(sources)
    ensures CursorsNeverDecrease(sources)
  {
    forall a, b, src | IsRun(sources, EMPTY, a) && IsRun(sources, After(sources, EMPTY, a), b)
      ensures AtMost(CursorOf(After(sources, EMPTY, a).tables, src),
                     CursorOf(After(sources, After(sources, EMPTY, a), b).tables, src))
    {
      RunKeepsInv(sources, EMPTY, a);
      RunKeepsInv(sources, After(sources, EMPTY, a), b);
    }
  }
}
