/**
 What distinct sources are needed for: as soon as a source is listed twice, its two
 ingests can overlap in one round and the cursor can go back.
 */
module SharedSource {
  import opened Wrappers
  import opened Timestamps
  import opened PostStore
  import opened Ingest

  // In the middle of a round: next sources handed out, n workers, nothing stored since.
  function Middle(base: System, next: nat, n: nat, workers: map<nat, Worker>): System {
    base.(round := Some(Round(next, false, n, n, workers)))
  }

  lemma OneStep(sources: seq<string>, s: System, e: Step)
    requires IsEnabled(sources, s, e)
    ensures IsRun(sources, s, [e]) && After(sources, s, [e]) == Next(sources, s, e)
  {
    assert [e][1..] == [];
  }

  lemma {:induction false} RunAppend(sources: seq<string>, s: System, a: seq<Step>, b: seq<Step>)
    requires IsRun(sources, s, a) && IsRun(sources, After(sources, s, a), b)
    ensures IsRun(sources, s, a + b)
    ensures After(sources, s, a + b) == After(sources, After(sources, s, a), b)
    decreases |a|
  {
    if a == [] {
      assert a + b == b;
    } else {
      hide Next, IsEnabled;
      assert (a + b)[1..] == a[1..] + b;
      RunAppend(sources, Next(sources, s, a[0]), a[1..], b);
    }
  }

  lemma Extend(sources: seq<string>, s: System, a: seq<Step>, e: Step) returns (b: seq<Step>)
    requires IsRun(sources, s, a) && IsEnabled(sources, After(sources, s, a), e)
    ensures IsRun(sources, s, b) && After(sources, s, b) == Next(sources, After(sources, s, a), e)
  {
    hide Next, IsEnabled;
    OneStep(sources, After(sources, s, a), e);
    RunAppend(sources, s, a, [e]);
    b := a + [e];
  }

  // The next source's worker reads its cursor and waits.
  lemma Hold(sources: seq<string>, base: System, k: nat, n: nat, workers: map<nat, Worker>) returns (es: seq<Step>)
    requires k < |sources| && n < MAX_CONCURRENT
    ensures IsRun(sources, Middle(base, k, n, workers), es)
    ensures After(sources, Middle(base, k, n, workers), es) == Middle(base, k + 1, n + 1, workers[k := WithCursor(CursorOf(base.tables, sources[k]))])
  {
    hide IsRun, After;
    var s := Middle(base, k, n, workers);
    OneStep(sources, s, Announce);
    es := Extend(sources, s, [Announce], Spawn);
    es := Extend(sources, s, es, ReadCursor(k));
    var w := WithCursor(CursorOf(base.tables, sources[k]));
    assert workers[k := Starting][k := w] == workers[k := w];
  }

  // The next source's worker fails to fetch and is gone.
  lemma Skip(sources: seq<string>, base: System, k: nat, n: nat, workers: map<nat, Worker>) returns (es: seq<Step>)
    requires k < |sources| && n < MAX_CONCURRENT && k !in workers
    ensures IsRun(sources, Middle(base, k, n, workers), es)
    ensures After(sources, Middle(base, k, n, workers), es) == Middle(base, k + 1, n, workers)
  {
    hide IsRun, After;
    var s := Middle(base, k, n, workers);
    es := Hold(sources, base, k, n, workers);
    es := Extend(sources, s, es, Fetch(k, Failed));
    es := Extend(sources, s, es, Release(k));
    es := Extend(sources, s, es, Depart(k));
    var w := WithCursor(CursorOf(base.tables, sources[k]));
    assert workers[k := w][k := Returning][k := Leaving] - {k} == workers;
  }

  lemma {:induction false} SkipTo(sources: seq<string>, base: System, k: nat, m: nat, n: nat, workers: map<nat, Worker>)
    returns (es: seq<Step>)
    requires k <= m <= |sources| && n < MAX_CONCURRENT
    requires forall i :: i in workers ==> i < k
    ensures IsRun(sources, Middle(base, k, n, workers), es)
    ensures After(sources, Middle(base, k, n, workers), es) == Middle(base, m, n, workers)
    decreases |sources| - k
  {
    if k == m {
      es := [];
    } else {
      hide IsRun, After;
      var first := Skip(sources, base, k, n, workers);
      var rest := SkipTo(sources, base, k + 1, m, n, workers);
      RunAppend(sources, Middle(base, k, n, workers), first, rest);
      es := first + rest;
    }
  }

  // Both ingests of a source that is listed twice have read the empty cursor.
  lemma BothRead(sources: seq<string>, i: nat, j: nat) returns (es: seq<Step>)
    requires i < j < |sources|
    ensures IsRun(sources, EMPTY, es)
    ensures After(sources, EMPTY, es) == Middle(EMPTY, j + 1, 2, map[i := WithCursor(""), j := WithCursor("")])
  {
    hide IsRun, After, Middle;
    StartsInMiddle(sources, EMPTY);
    var a := SkipTo(sources, EMPTY, 0, i, 0, map[]);
    RunAppend(sources, EMPTY, [StartRound], a);
    var b := Hold(sources, EMPTY, i, 0, map[]);
    RunAppend(sources, EMPTY, [StartRound] + a, b);
    var one: map<nat, Worker> := map[i := WithCursor("")];
    assert map[][i := WithCursor("")] == one;
    var c := SkipTo(sources, EMPTY, i + 1, j, 1, one);
    RunAppend(sources, EMPTY, [StartRound] + a + b, c);
    var d := Hold(sources, EMPTY, j, 1, one);
    RunAppend(sources, EMPTY, [StartRound] + a + b + c, d);
    assert one[j := WithCursor("")] == map[i := WithCursor(""), j := WithCursor("")];
    es := [StartRound] + a + b + c + d;
  }

  lemma StartsInMiddle(sources: seq<string>, s: System)
    requires s.round.None?
    ensures IsRun(sources, s, [StartRound]) && After(sources, s, [StartRound]) == Middle(s, 0, 0, map[])
  {
    OneStep(sources, s, StartRound);
  }

  // One post with the given date, as the source would yield it.
  function OnePost(src: string, date: string): Fetched {
    if IsTelegram(src) then Message(Item("s", "x", date)) else Items([Item("s", "x", date)])
  }

  lemma OnePostSelected(src: string, date: string)
    requires date != ""
    ensures IsFetchOf(src, OnePost(src, date))
    ensures Select("", OnePost(src, date)) == Selection([Post("s", "x", date)], date)
  {
    var items := [Item("s", "x", date)];
    assert items[..0] == [];
    assert SelectItems("", items).posts == [] + [ToPost(items[0])];
  }

  // A state in which the source's cursor is at the later date and the other ingest
  // still holds the earlier one, followed by the rest of that ingest.
  lemma CursorGoesBack(sources: seq<string>, i: nat, j: nat) returns (a: seq<Step>, b: seq<Step>)
    requires i < j < |sources| && sources[i] == sources[j]
    ensures IsRun(sources, EMPTY, a) && IsRun(sources, After(sources, EMPTY, a), b)
    ensures CursorOf(After(sources, EMPTY, a).tables, sources[i]) == "2"
    ensures CursorOf(After(sources, After(sources, EMPTY, a), b).tables, sources[i]) == "1"
  {
    hide IsRun, After, Select, InsertAll, IsFetchOf;
    var src := sources[i];
    OnePostSelected(src, "1");
    OnePostSelected(src, "2");
    a := BothRead(sources, i, j);
    a := Extend(sources, EMPTY, a, Fetch(i, OnePost(src, "1")));
    a := Extend(sources, EMPTY, a, Fetch(j, OnePost(src, "2")));
    InsertAllHashes(EMPTY.tables, [Post("s", "x", "2")], "");
    a := Extend(sources, EMPTY, a, Insert(j, ""));
    a := Extend(sources, EMPTY, a, Advance(j));
    var s := After(sources, EMPTY, a);
    assert s.round.value.workers[i] == Selected("", Selection([Post("s", "x", "1")], "1"));
    OneStep(sources, s, Insert(i, ""));
    InsertAllHashes(s.tables, [Post("s", "x", "1")], "");
    b := Extend(sources, s, [Insert(i, "")], Advance(i));
  }

  // Cursors never go back, in any run, if and only if no source is listed twice.
  lemma CursorsNeverDecreaseIff(sources: seq<string>)
    ensures CursorsNeverDecrease(sources) <==> AreDistinct(sources)
  {
    hide IsRun, After, CursorOf, EMPTY;
    if AreDistinct(sources) {
      DistinctSourcesKeepCursors(sources);
    } else {
      var i, j :| 0 <= i < j < |sources| && sources[i] == sources[j];
      var a, b := CursorGoesBack(sources, i, j);
      assert Less("1", "2");
      assert !AtMost(CursorOf(After(sources, EMPTY, a).tables, sources[i]),
                     CursorOf(After(sources, After(sources, EMPTY, a), b).tables, sources[i]));
    }
  }
}
