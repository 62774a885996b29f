/**
 Which posts a source can insert twice: exactly those without a date, from a source that
 yields a list.  No cursor holds such a post back, so that a pruned one comes back.
 */
module Dateless {
  import opened Wrappers
  import opened Timestamps
  import opened PostStore
  import opened Ingest
  import opened SharedSource

  predicate HoldsAt(log: seq<Batch>, k: nat, src: string, p: Post) {
    k < |log| && log[k].src == src && p in log[k].posts
  }

  ghost predicate HoldsTwice(log: seq<Batch>, src: string, p: Post) {
    exists j: nat, k: nat :: j < k && HoldsAt(log, j, src, p) && HoldsAt(log, k, src, p)
  }

  // Some run puts the post into two batches of the source.
  ghost predicate IsInsertedTwice(sources: seq<string>, src: string, p: Post) {
    exists es :: IsRun(sources, EMPTY, es) && HoldsTwice(After(sources, EMPTY, es).log, src, p)
  }

  ghost predicate HasRow(s: System, p: Post) {
    exists r :: r in s.tables.rows && r.post == p
  }

  // The post is stored, then pruned, then stored again, by batches of the source.
  ghost predicate IsReturn(s: System, t: System, u: System, src: string, p: Post) {
    && HasRow(s, p) && HashInput(p) !in Hashes(t.tables.rows) && HasRow(u, p)
    && exists j: nat, k: nat :: j < |s.log| <= |t.log| <= k && HoldsAt(u.log, j, src, p) && HoldsAt(u.log, k, src, p)
  }

  ghost predicate IsThrice(sources: seq<string>, a: seq<Step>, b: seq<Step>, c: seq<Step>) {
    && IsRun(sources, EMPTY, a) && IsRun(sources, After(sources, EMPTY, a), b)
    && IsRun(sources, After(sources, After(sources, EMPTY, a), b), c)
  }

  ghost predicate ComesBack(sources: seq<string>, src: string, p: Post) {
    exists a, b, c :: IsThrice(sources, a, b, c)
      && IsReturn(After(sources, EMPTY, a), After(sources, After(sources, EMPTY, a), b),
                  After(sources, After(sources, After(sources, EMPTY, a), b), c), src, p)
  }

  // ---- A channel's message has a date ----

  ghost predicate AreDated(posts: seq<Post>) {
    forall p :: p in posts ==> p.pubDate != ""
  }

  ghost predicate ChannelsAreDated(sources: seq<string>, s: System) {
    && (forall k :: 0 <= k < |s.log| && IsTelegram(s.log[k].src) ==> AreDated(s.log[k].posts))
    && (s.round.Some? ==> forall i :: i in s.round.value.workers && s.round.value.workers[i].Selected? ==>
          (i < |sources| && IsTelegram(sources[i]) ==> AreDated(s.round.value.workers[i].selection.posts)))
  }

  lemma MessageIsDated(cursor: string, f: Fetched)
    requires !f.Items?
    ensures AreDated(Select(cursor, f).posts)
  {
  }

  lemma StepKeepsDated(sources: seq<string>, s: System, e: Step)
    requires ChannelsAreDated(sources, s) && IsEnabled(sources, s, e)
    ensures ChannelsAreDated(sources, Next(sources, s, e))
  {
    hide AreDated, IsTelegram, Select, InsertAll, AdvanceCursor, CursorOf;
    if e.Fetch? {
      if IsTelegram(sources[e.i]) {
        MessageIsDated(s.round.value.workers[e.i].cursor, e.f);
      }
    }
  }

  lemma {:induction false} RunKeepsDated(sources: seq<string>, s: System, es: seq<Step>)
    requires ChannelsAreDated(sources, s) && IsRun(sources, s, es)
    ensures ChannelsAreDated(sources, After(sources, s, es))
    decreases |es|
  {
    if es != [] {
      hide ChannelsAreDated, Next;
      StepKeepsDated(sources, s, es[0]);
      RunKeepsDated(sources, Next(sources, s, es[0]), es[1..]);
    }
  }

  // ---- A dateless post comes back ----

  function Feed(p: Post): Fetched {
    Items([ToItem(p)])
  }

  lemma FeedSelected(p: Post)
    requires p.pubDate == ""
    ensures Select("", Feed(p)) == Selection([p], "")
  {
    var items := [ToItem(p)];
    assert items[..0] == [];
    assert SelectItems("", items).posts == [] + [ToPost(items[0])];
  }

  // Only source i has a worker, and that has stored a dateless post.
  function HasStored(i: nat): Option<Round> {
    Some(Round(i + 1, false, 1, 1, map[i := Stored("", "")]))
  }

  // A round up to the insert of the one post; the ingests before it fail.
  lemma InsertRound(sources: seq<string>, s: System, i: nat, p: Post, now: string) returns (es: seq<Step>)
    requires i < |sources| && !IsTelegram(sources[i]) && p.pubDate == ""
    requires s.round.None? && CursorOf(s.tables, sources[i]) == ""
    ensures IsRun(sources, s, es)
    ensures After(sources, s, es) == System(InsertAll(s.tables, [p], now), HasStored(i), s.log + [Batch(sources[i], [p])])
  {
    hide IsRun, After, Select, InsertAll, IsTelegram, CursorOf;
    FeedSelected(p);
    StartsInMiddle(sources, s);
    var none: map<nat, Worker> := map[];
    var a := SkipTo(sources, s, 0, i, 0, none);
    RunAppend(sources, s, [StartRound], a);
    var b := Hold(sources, s, i, 0, none);
    RunAppend(sources, s, [StartRound] + a, b);
    es := Extend(sources, s, [StartRound] + a + b, Fetch(i, Feed(p)));
    es := Extend(sources, s, es, Insert(i, now));
    assert none[i := WithCursor("")][i := Selected("", Selection([p], ""))][i := Stored("", "")] == map[i := Stored("", "")];
  }

  // The rest of the round; the ingests after it fail, and posts are pruned.
  lemma PruneRound(sources: seq<string>, s: System, i: nat, cutoff: string) returns (es: seq<Step>)
    requires i < |sources| && s.round == HasStored(i)
    ensures IsRun(sources, s, es)
    ensures After(sources, s, es) == System(PruneTables(s.tables, cutoff), None, s.log)
  {
    hide IsRun, After, PruneTables;
    OneStep(sources, s, Advance(i));
    es := Extend(sources, s, [Advance(i)], Release(i));
    es := Extend(sources, s, es, Depart(i));
    var none: map<nat, Worker> := map[];
    assert map[i := Stored("", "")][i := Returning][i := Leaving] - {i} == none;
    assert After(sources, s, es) == Middle(s, i + 1, 0, none);
    var rest := SkipTo(sources, s, i + 1, |sources|, 0, none);
    RunAppend(sources, s, es, rest);
    es := Extend(sources, s, es + rest, EndRound(cutoff));
  }

  lemma OneInsert(t: Tables, p: Post, now: string)
    requires t.rows == []
    ensures InsertAll(t, [p], now) == Tables([Row(t.nextId, p, now)], t.nextId + 1, t.cursors)
  {
    assert [p][..0] == [];
    assert InsertAll(t, [], now) == t;
  }

  lemma OnePruned(r: Row)
    requires r.fetchedAt == "1"
    ensures KeepFrom([r], "2") == []
  {
    assert [r][1..] == [] && Less("1", "2");
  }

  lemma {:induction false} DatelessComesBack(sources: seq<string>, i: nat, p: Post)
    requires i < |sources| && p.pubDate == "" && !IsTelegram(sources[i])
    ensures ComesBack(sources, sources[i], p)
  {
    hide IsRun, After, IsTelegram, InsertAll, HashInput, KeepFrom;
    var src := sources[i];
    var a := InsertRound(sources, EMPTY, i, p, "1");
    OneInsert(EMPTY.tables, p, "1");
    var s := After(sources, EMPTY, a);
    var row := Row(1, p, "1");
    assert s.tables.rows == [row] && row in s.tables.rows;
    var b := PruneRound(sources, s, i, "2");
    OnePruned(row);
    var t := After(sources, s, b);
    var c := InsertRound(sources, t, i, p, "3");
    OneInsert(t.tables, p, "3");
    var u := After(sources, t, c);
    assert u.tables.rows == [Row(2, p, "3")] && Row(2, p, "3") in u.tables.rows;
    assert u.log == [Batch(src, [p]), Batch(src, [p])];
    assert HoldsAt(u.log, 0, src, p) && HoldsAt(u.log, 1, src, p);
    assert IsReturn(s, t, u, src, p);
    assert IsThrice(sources, a, b, c);
  }

  // ---- Exactly which posts ----

  lemma ComesBackIsTwice(sources: seq<string>, src: string, p: Post)
    requires ComesBack(sources, src, p)
    ensures IsInsertedTwice(sources, src, p)
  {
    hide IsRun, After, HoldsAt, HasRow;
    var a, b, c :| IsThrice(sources, a, b, c)
      && IsReturn(After(sources, EMPTY, a), After(sources, After(sources, EMPTY, a), b),
                  After(sources, After(sources, After(sources, EMPTY, a), b), c), src, p);
    RunAppend(sources, EMPTY, a, b);
    RunAppend(sources, EMPTY, a + b, c);
    assert HoldsTwice(After(sources, EMPTY, a + b + c).log, src, p);
  }

  lemma LaterIsDateless(earlier: Batch, later: Batch, p: Post)
    requires IsNewer(earlier, later) && p in earlier.posts && p in later.posts
    ensures p.pubDate == ""
  {
    LessIrreflexive(p.pubDate);
  }

  lemma LaterIsNewer(sources: seq<string>, es: seq<Step>, j: nat, k: nat)
    requires AreDistinct(sources) && IsRun(sources, EMPTY, es)
    requires var log := After(sources, EMPTY, es).log; j < k < |log| && log[j].src == log[k].src
    ensures var log := After(sources, EMPTY, es).log; IsNewer(log[j], log[k])
  {
    hide IsRun, After, IsNewer;
    IngestSafety(sources, es);
  }

  lemma TwiceIsDateless(sources: seq<string>, src: string, p: Post)
    requires AreDistinct(sources) && IsInsertedTwice(sources, src, p)
    ensures p.pubDate == "" && !IsTelegram(src)
  {
    hide IsRun, After, AreDistinct, IsTelegram, IsNewer;
    var es :| IsRun(sources, EMPTY, es) && HoldsTwice(After(sources, EMPTY, es).log, src, p);
    var log := After(sources, EMPTY, es).log;
    var j: nat, k: nat :| j < k && HoldsAt(log, j, src, p) && HoldsAt(log, k, src, p);
    LaterIsNewer(sources, es, j, k);
    LaterIsDateless(log[j], log[k], p);
    RunKeepsDated(sources, EMPTY, es);
    assert IsTelegram(src) ==> AreDated(log[j].posts);
  }

  // Over all runs of distinct sources: a source can insert a post twice, and a pruned post
  // can come back, if and only if the post has no date and the source yields a list.
  lemma ComesBackIff(sources: seq<string>, src: string, p: Post)
    requires AreDistinct(sources) && src in sources
    ensures IsInsertedTwice(sources, src, p) <==> p.pubDate == "" && !IsTelegram(src)
    ensures ComesBack(sources, src, p) <==> p.pubDate == "" && !IsTelegram(src)
  {
    hide IsTelegram, AreDistinct;
    hide IsInsertedTwice, ComesBack;
    if p.pubDate == "" && !IsTelegram(src) {
      var i :| 0 <= i < |sources| && sources[i] == src;
      DatelessComesBack(sources, i, p);
    }
    if ComesBack(sources, src, p) {
      ComesBackIsTwice(sources, src, p);
    }
    if IsInsertedTwice(sources, src, p) {
      TwiceIsDateless(sources, src, p);
    }
  }
}
