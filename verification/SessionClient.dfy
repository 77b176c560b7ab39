// The client loops of opof_run_tests.c against the server.
module SessionClient {
  import opened Seqs
  import opened Links
  import opened TableSpec
  import opened UtHash
  import opened TableRuns
  import opened SessionSpec
  import opened AddLoopSpec
  import opened DrainSpec
  import opened Chunking
  import opened SessionServer
  import Paging = PagingSpec
  import Cleanup = CleanupSpec

  function ResponseIds(page: seq<Response>): seq<nat> {
    seq(|page|, i requires 0 <= i < |page| => page[i].sessionId)
  }

  lemma PageIds(s: seq<Record>)
    ensures ResponseIds(PageResponses(s)) == IdsOf(s)
  {
  }

  // The server is in the state the cleanup model describes. A dangling cursor, and one
  // about to be reset, are not constrained.
  ghost predicate Matches(server: Server, c: Cleanup.Cleanup)
    reads server, server.sessions, server.sessions.buckets, server.sessions.app
  {
    && server.Valid() && server.Table() == c.recs
    && (c.key != UINT_MAX && c.cursor.Some? ==> server.CursorAt(c.cursor.value))
  }

  // Where a deletion leaves a cursor that stood at c.
  lemma CursorMoves(app: seq<Node>, app': seq<Node>, start: Node?, i: nat, c: nat)
    requires NoDup(app) && i < |app| && app' == Without(app, i)
    requires c <= |app| && start == (if c < |app| then app[c] else null)
    ensures |app'| == |app| - 1
    ensures i < c ==> start == (if c - 1 < |app'| then app'[c - 1] else null)
    ensures i > c ==> start == (if c < |app'| then app'[c] else null)
  {
  }

  // One delete request of the cleanup.
  method DeleteOne(server: Server, id: nat, ghost cursor: Option<nat>) returns (ghost cursor': Option<nat>)
    requires server.Valid() && (cursor.Some? ==> server.CursorAt(cursor.value))
    modifies server.sessions.Footprint()
    ensures server.Valid() && server.sessions.Footprint() <= old(server.sessions.Footprint())
    ensures (server.Table(), cursor') == Cleanup.DeleteStep(old(server.Table()), cursor, id)
    ensures cursor'.Some? ==> server.CursorAt(cursor'.value)
  {
    hide HashTable.Valid, Cleanup.Wire, Recs, IndexOf, Without, NoDup;
    ghost var app, s := server.sessions.app, server.Table();
    ghost var i := IndexOf(s, Cleanup.Wire(id));
    ValidList(server.sessions);
    RecsLength(app);
    RemoveAt(s, Cleanup.Wire(id));
    var status, resp := server.DelSession(Cleanup.Wire(id));
    cursor' := if i == |s| then cursor else Cleanup.CursorAfter(cursor, i);
    if i < |s| && cursor.Some? {
      CursorMoves(app, server.sessions.app, server.start, i, cursor.value);
    }
  }

  lemma RemoveAt(s: seq<Record>, id: nat)
    ensures Remove(s, id) == if IndexOf(s, id) < |s| then Without(s, IndexOf(s, id)) else s
  {
  }

  lemma RecsLength(app: seq<Node>)
    ensures |Recs(app)| == |app|
  {
  }

  // One turn of opof_delete_all_sessions: a page, then a delete for each of its ids.
  method CleanupTurn(server: Server, sessionStart: nat, ghost c: Cleanup.Cleanup)
    returns (nsessions: nat, sessionStart': nat, ghost c': Cleanup.Cleanup)
    requires Matches(server, c) && c.key == sessionStart && c.phase == Cleanup.Running
    requires sessionStart == UINT_MAX || c.cursor.Some?
    modifies server.Footprint()
    ensures server.sessions.Footprint() <= old(server.sessions.Footprint())
    ensures c' == Cleanup.Round(c) && Matches(server, c') && c'.key == sessionStart'
    ensures nsessions == 0 <==> c'.phase == Cleanup.Finished
    ensures nsessions > 0 ==> c'.phase == Cleanup.Running
  {
    hide HashTable.Valid, PageResponses, ResponseIds, IdsOf, Recs, Take, Drop, Cleanup.Round, Cleanup.DeleteIds;
    ghost var p := if sessionStart == UINT_MAX then 0 else c.cursor.value;
    ghost var s := server.Table();
    var page;
    page, sessionStart' := server.GetAllSessions(sessionStart, p);
    nsessions := |page|;
    ghost var recs := Take(Drop(s, p), BUFFER_MAX);
    PageIds(recs);
    PageLast(recs);
    Cleanup.RoundIs(c, p);
    c' := Cleanup.Round(c);
    if nsessions == 0 {
      return;
    }
    ghost var cursor := DeletePageIds(server, page, Some(p + |page|));
  }

  lemma PageLast(s: seq<Record>)
    ensures |PageResponses(s)| == |s|
    ensures s != [] ==> Last(PageResponses(s)).sessionId == Last(s).sessionId
  {
  }

  method DeletePageIds(server: Server, page: seq<Response>, ghost cursor0: Option<nat>)
    returns (ghost cursor: Option<nat>)
    requires server.Valid() && (cursor0.Some? ==> server.CursorAt(cursor0.value))
    modifies server.sessions.Footprint()
    ensures server.Valid() && server.sessions.Footprint() <= old(server.sessions.Footprint())
    ensures cursor.Some? ==> server.CursorAt(cursor.value)
    ensures (server.Table(), cursor) == Cleanup.DeleteIds(old(server.Table()), cursor0, ResponseIds(page))
  {
    hide HashTable.Valid, Cleanup.DeleteStep, Recs;
    ghost var ids := ResponseIds(page);
    cursor := cursor0;
    var i := 0;
    assert ids[0..] == ids;
    while i < |page|
      invariant i <= |page| && server.Valid()
      invariant server.sessions.Footprint() <= old(server.sessions.Footprint())
      invariant cursor.Some? ==> server.CursorAt(cursor.value)
      invariant Cleanup.DeleteIds(server.Table(), cursor, ids[i..])
             == Cleanup.DeleteIds(old(server.Table()), cursor0, ids)
    {
      var sessionId := page[i].sessionId;
      assert ids[i..][0] == sessionId && ids[i..][1..] == ids[i + 1..];
      cursor := DeleteOne(server, sessionId, cursor);
      i := i + 1;
    }
  }

  // opof_delete_all_sessions: with ids that survive the conversions it ends, with an
  // empty table, and never follows the cursor into a freed record.
  method DeleteAllSessions(server: Server)
    requires server.Valid() && Cleanup.AllRoundTrip(server.Table())
    modifies server.Footprint()
    ensures server.Valid() && server.sessions.Footprint() <= old(server.sessions.Footprint())
    ensures server.Table() == []
  {
    hide HashTable.Valid, Matches, Cleanup.Rounds, Cleanup.AllRoundTrip, Recs;
    ghost var s, n := server.Table(), 0;
    ValidKeys(server.sessions);
    var nsessions: nat, sessionStart := 1, UINT_MAX;
    ghost var c := Cleanup.Rounds(s, 0);
    StartMatches(server);
    while nsessions > 0
      invariant server.sessions.Footprint() <= old(server.sessions.Footprint())
      invariant c == Cleanup.Rounds(s, n) && Matches(server, c) && c.key == sessionStart
      invariant nsessions == 0 <==> c.phase == Cleanup.Finished
      invariant nsessions > 0 ==> c.phase == Cleanup.Running
      invariant n == 0 ==> sessionStart == UINT_MAX
      decreases |s| + 2 - n, nsessions
    {
      Cleanup.CleanupRounds(s, n);
      nsessions, sessionStart, c := CleanupTurn(server, sessionStart, c);
      Cleanup.NextRound(s, n);
      n := n + 1;
    }
    Cleanup.FinishedEmpty(s, n);
    MatchesTable(server, c);
  }

  lemma StartMatches(server: Server)
    requires server.Valid()
    ensures var c := Cleanup.Rounds(server.Table(), 0);
            Matches(server, c) && c.key == UINT_MAX && c.phase == Cleanup.Running
  {
  }

  lemma MatchesTable(server: Server, c: Cleanup.Cleanup)
    requires Matches(server, c)
    ensures server.Valid() && server.Table() == c.recs
  {
  }

  lemma IdsOfPage(s: seq<Record>, p: nat)
    ensures IdsOf(Take(Drop(s, p), BUFFER_MAX)) == Take(Drop(IdsOf(s), p), BUFFER_MAX)
  {
  }

  // The paging loop of opof_test2: when no page ends on the reset key, the pages are the
  // whole table in application order, cut into pages of 64.
  method PageAll(server: Server) returns (pages: seq<seq<nat>>)
    requires server.Valid() && !Paging.ResetKeyAtPageEnd(IdsOf(server.Table()))
    modifies server`start
    ensures pages == Chunks(IdsOf(server.Table()), BUFFER_MAX)
  {
    hide HashTable.Valid, Recs, IdsOf, Paging.Round, Paging.Rounds, Paging.ResetKeyAtPageEnd, Take, Drop,
         PageResponses, ResponseIds;
    ghost var ids := IdsOf(server.Table());
    ghost var n, p := 0, Paging.Rounds(ids, 0);
    Paging.FirstRound(ids);
    var nsessions: nat, sessionStart := 1, UINT_MAX;
    pages := [];
    while nsessions > 0
      invariant p == Paging.Rounds(ids, n) && p.pages == pages && p.key == sessionStart
      invariant sessionStart != UINT_MAX ==> server.CursorAt(p.cursor)
      invariant nsessions == 0 <==> p.done
      decreases |ids| + 1 - n, nsessions
    {
      ghost var pos := if sessionStart == UINT_MAX then 0 else p.cursor;
      Paging.RoundsLeft(ids, n);
      Paging.RoundIs(ids, p, pos);
      Paging.NextRound(ids, n);
      ghost var recs := Take(Drop(server.Table(), pos), BUFFER_MAX);
      PageIds(recs);
      PageLast(recs);
      IdsOfPage(server.Table(), pos);
      IdsOfLast(recs);
      var page;
      page, sessionStart := server.GetAllSessions(sessionStart, pos);
      nsessions := |page|;
      if nsessions > 0 {
        pages := pages + [ResponseIds(page)];
      }
      n, p := n + 1, Paging.Round(ids, p);
    }
    Paging.RoundsPages(ids, n);
  }

  lemma IdsOfLast(s: seq<Record>)
    ensures |IdsOf(s)| == |s|
    ensures s != [] ==> Last(IdsOf(s)) == Last(s).sessionId
  {
  }

  // The drain loop of opof_test1. It overruns the 64-entry arrays exactly when the page
  // size is not 1 to 64 and more than 64 records are closed. Otherwise the closed records
  // present at the start are reported once each, in order, in pages of pageSize, and the
  // others stay, in order.
  method DrainAll(server: Server, pageSize: nat) returns (replies: seq<seq<nat>>, overrun: bool)
    requires server.Valid()
    modifies server.sessions.Footprint()
    ensures server.Valid() && server.sessions.Footprint() <= old(server.sessions.Footprint())
    ensures overrun <==> !DrainFits(old(server.Table()), pageSize)
    ensures !overrun ==> replies == Pages(IdsOf(ClosedOf(old(server.Table()))), pageSize)
    ensures !overrun ==> server.Table() == OpenOf(old(server.Table()))
  {
    hide HashTable.Valid, Recs, IdsOf, ClosedOf, OpenOf, Pages, Drained, PageResponses, ResponseIds;
    var closed: nat := 1;
    replies, overrun := [], false;
    ghost var s := server.Table();
    NoReplies(s, pageSize);
    while closed > 0
      invariant server.Valid() && server.sessions.Footprint() <= old(server.sessions.Footprint())
      invariant replies + Pages(IdsOf(ClosedOf(server.Table())), pageSize) == Pages(IdsOf(ClosedOf(s)), pageSize)
      invariant OpenOf(server.Table()) == OpenOf(s)
      invariant closed == 0 ==> ClosedOf(server.Table()) == [] && DrainFits(s, pageSize)
      invariant DrainFits(s, pageSize) ==> DrainFits(server.Table(), pageSize)
      invariant DrainFits(s, pageSize) || server.Table() == s
      decreases |ClosedOf(server.Table())|, closed
    {
      ghost var t := server.Table();
      DrainTurn(t, pageSize);
      ghost var r, k := Drained(t, pageSize).0, Drained(t, pageSize).1;
      PageIds(r);
      PageLast(r);
      MoreReplies(replies, IdsOf(r), Pages(IdsOf(ClosedOf(k)), pageSize));
      var page;
      page, overrun := server.GetClosedSessions(pageSize);
      if overrun {
        return;
      }
      closed := |page|;
      if closed > 0 {
        replies := replies + [ResponseIds(page)];
      } else {
        NothingClosed(t, k, pageSize);
      }
    }
    AllReplied(server.Table(), replies, pageSize);
  }

  lemma NoReplies(s: seq<Record>, size: nat)
    ensures [] + Pages(IdsOf(ClosedOf(s)), size) == Pages(IdsOf(ClosedOf(s)), size)
  {
    var c := Pages(IdsOf(ClosedOf(s)), size);
    assert [] + c == c;
  }

  lemma MoreReplies<T>(a: seq<T>, b: T, c: seq<T>)
    ensures a + ([b] + c) == a + [b] + c
  {
  }

  lemma NothingClosed(t: seq<Record>, k: seq<Record>, size: nat)
    requires ClosedOf(t) == [] && ClosedOf(k) == []
    ensures Pages(IdsOf(ClosedOf(t)), size) == Pages(IdsOf(ClosedOf(k)), size)
  {
  }

  lemma AllReplied(s: seq<Record>, replies: seq<seq<nat>>, size: nat)
    requires ClosedOf(s) == []
    ensures replies + Pages(IdsOf(ClosedOf(s)), size) == replies && OpenOf(s) == s
  {
    NoneClosed(s);
    assert IdsOf(ClosedOf(s)) == [];
  }

  // convertAddSessionResponse2c: copies the errors of a reply into the client's array.
  method CopyErrors(reply: seq<AddError>, sessionErrors: array<AddError>) returns (numberErrors: nat)
    requires |reply| <= sessionErrors.Length
    modifies sessionErrors
    ensures numberErrors == |reply| && sessionErrors[..numberErrors] == reply
  {
    numberErrors := |reply|;
    var i: nat := 0;
    while i < numberErrors
      invariant i <= numberErrors && sessionErrors[..i] == reply[..i]
    {
      sessionErrors[i] := reply[i];
      i := i + 1;
    }
    assert reply[..i] == reply;
  }

  // The adding loop of the tests, in streams of pageSize consecutive ids. It overruns the
  // client's 64-entry array exactly when some stream has more than 64 rejected requests.
  method AddInChunks(server: Server, total: nat, pageSize: nat) returns (errors: seq<AddError>, overrun: bool)
    requires server.Valid() && (pageSize >= 1 || total == 0)
    modifies server.sessions.Footprint()
    ensures server.Valid() && fresh(server.sessions.Footprint() - old(server.sessions.Footprint()))
    ensures overrun <==> !StreamsFit(old(server.Table()), total, pageSize)
    ensures !overrun ==> (server.Table(), errors) == AddAll(old(server.Table()), Consecutive(0, total))
  {
    hide HashTable.Valid, Recs, AddAll, Consecutive, StreamFits;
    var maxSessions: int, sessionId: nat := total, 0;
    errors, overrun := [], false;
    ghost var s, k: nat := server.Table(), 0;
    var sessionErrors := new AddError[BUFFER_MAX](_ => AddError(0, Ok));
    EmptyStream(s);
    while maxSessions > 0
      invariant server.Valid() && fresh(server.sessions.Footprint() - old(server.sessions.Footprint()))
      invariant fresh(sessionErrors) && sessionErrors !in server.sessions.Footprint()
      invariant sessionId == if maxSessions > 0 then total - maxSessions else total
      invariant maxSessions > 0 ==> sessionId == k * pageSize
      invariant maxSessions <= 0 ==> k * pageSize >= total
      invariant (server.Table(), errors) == AddAll(s, Consecutive(0, sessionId))
      invariant forall j: nat :: j < k ==> StreamFits(s, total, pageSize, j)
      decreases maxSessions
    {
      var sessionCount := maxSessions - pageSize;
      var bufferSize := if sessionCount < 0 then maxSessions else pageSize;
      var reply := server.AddStream(Consecutive(sessionId, bufferSize));
      ThisStream(s, total, pageSize, k, reply);
      AddAllAppend(s, Consecutive(0, sessionId), Consecutive(sessionId, bufferSize));
      NextStream(sessionId, bufferSize);
      if |reply| > BUFFER_MAX {
        overrun := true;
        return;
      }
      var numberErrors := CopyErrors(reply, sessionErrors);
      errors := errors + sessionErrors[..numberErrors];
      maxSessions := sessionCount;
      sessionId := sessionId + bufferSize;
      NextStart(k, pageSize);
      k := k + 1;
    }
    LaterStreams(s, total, pageSize, k);
  }

  lemma ThisStream(s: seq<Record>, total: nat, pageSize: nat, k: nat, reply: seq<AddError>)
    requires k * pageSize < total
    requires var from := k * pageSize;
             reply == AddAll(AddAll(s, Consecutive(0, from)).0, Consecutive(from, StreamLength(from, total, pageSize))).1
    ensures StreamFits(s, total, pageSize, k) <==> |reply| <= BUFFER_MAX
  {
  }

  lemma NextStart(k: nat, pageSize: nat)
    ensures (k + 1) * pageSize == k * pageSize + pageSize
  {
  }

  // There is no stream past the end.
  lemma LaterStreams(s: seq<Record>, total: nat, pageSize: nat, k: nat)
    requires k * pageSize >= total && forall j: nat :: j < k ==> StreamFits(s, total, pageSize, j)
    ensures StreamsFit(s, total, pageSize)
  {
    forall j: nat ensures StreamFits(s, total, pageSize, j) {
      if j >= k {
        Times(k, j, pageSize);
      }
    }
  }

  lemma EmptyStream(s: seq<Record>)
    ensures AddAll(s, Consecutive(0, 0)) == (s, [])
  {
    assert Consecutive(0, 0) == [];
  }

  // opof_test1 from end to end, on any table whose ids round-trip: after the cleanup the
  // first 1001 of the ids sent are admitted, and the drain reports exactly those, in
  // order, in pages of pageSize, and leaves nothing behind. A page size above 64 overruns
  // a 64-entry array exactly when more than 64 sessions are sent.
  method Test1(server: Server, total: nat, pageSize: nat) returns (replies: seq<seq<nat>>, overrun: bool)
    requires server.Valid() && Cleanup.AllRoundTrip(server.Table()) && (pageSize >= 1 || total == 0)
    modifies server.Footprint()
    ensures server.Valid()
    ensures overrun <==> pageSize > BUFFER_MAX && total > BUFFER_MAX
    ensures !overrun ==> server.Table() == []
    ensures !overrun ==> replies == Pages(Consecutive(0, if total <= 1001 then total else 1001), pageSize)
  {
    hide HashTable.Valid, Recs, Cleanup.AllRoundTrip, AddAll, Pages, ClosedOf, OpenOf, Consecutive, StreamsFit;
    replies := [];
    var errors;
    DeleteAllSessions(server);
    FitsFromEmptyIff(total, pageSize);
    errors, overrun := AddInChunks(server, total, pageSize);
    if !overrun {
      AllClosed(total);
      replies, overrun := DrainAll(server, pageSize);
    }
  }

  lemma AllClosed(total: nat)
    ensures var t := AddAll([], Consecutive(0, total)).0;
            var n := if total <= 1001 then total else 1001;
            && IdsOf(ClosedOf(t)) == Consecutive(0, n) && |ClosedOf(t)| == n
            && OpenOf(t) == []
  {
    hide ClosedOf, OpenOf, AddAll;
    var n := if total <= 1001 then total else 1001;
    AdmittedFromEmpty(total);
    NewAllClosed(Consecutive(0, n));
    assert IdsOf(NewRecords(Consecutive(0, n))) == Consecutive(0, n);
  }

  // opof_test2 from end to end: unless the adding loop overruns the client's array, for
  // which the sizes are exactly known, the pages are the admitted ids, 64 at a time.
  method Test2(server: Server, total: nat, pageSize: nat) returns (pages: seq<seq<nat>>, overrun: bool)
    requires server.Valid() && Cleanup.AllRoundTrip(server.Table()) && (pageSize >= 1 || total == 0)
    modifies server.Footprint()
    ensures overrun <==> !FitsFromEmpty(total, pageSize)
    ensures !overrun ==> pages == Chunks(Consecutive(0, if total <= 1001 then total else 1001), BUFFER_MAX)
  {
    hide HashTable.Valid, Recs, Cleanup.AllRoundTrip, AddAll, Chunks, Consecutive, Paging.ResetKeyAtPageEnd,
         StreamsFit, FitsFromEmpty;
    pages := [];
    var errors;
    DeleteAllSessions(server);
    FitsFromEmptyIff(total, pageSize);
    errors, overrun := AddInChunks(server, total, pageSize);
    if !overrun {
      AdmittedIds(total);
      pages := PageAll(server);
    }
  }

  lemma AdmittedIds(total: nat)
    ensures var ids := IdsOf(AddAll([], Consecutive(0, total)).0);
            ids == Consecutive(0, if total <= 1001 then total else 1001) && !Paging.ResetKeyAtPageEnd(ids)
  {
    hide AddAll;
    var n := if total <= 1001 then total else 1001;
    AdmittedFromEmpty(total);
    assert IdsOf(NewRecords(Consecutive(0, n))) == Consecutive(0, n);
  }
}
