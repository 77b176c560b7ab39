// The C session server: the table behind the RPCs and the static paging cursor.
module SessionServer {
  import opened Seqs
  import opened Links
  import opened TableSpec
  import opened UtHash
  import opened TableRuns
  import opened SessionSpec
  import opened DrainSpec

  function PageResponse(r: Record): Response {
    Response(r.sessionId, r.sessionState, Timeout)
  }

  function PageResponses(s: seq<Record>): (page: seq<Response>)
    ensures |page| == |s|
  {
    seq(|s|, i requires 0 <= i < |s| => PageResponse(s[i]))
  }

  // A page tells of its records, field by field.
  lemma PageFields(s: seq<Record>, p: nat)
    requires p <= |s|
    ensures var page := PageResponses(Take(Drop(s, p), BUFFER_MAX));
            && |page| == (if |s| - p < 64 then |s| - p else 64)
            && forall i :: 0 <= i < |page| ==>
                 && page[i].sessionId == s[p + i].sessionId
                 && page[i].sessionState == s[p + i].sessionState
                 && page[i].sessionCloseCode == Timeout
  {
  }

  // The reply tells of these records, field by field, and all are closed.
  predicate ReportsClosed(page: seq<Response>, taken: seq<Record>) {
    && |page| == |taken|
    && forall i :: 0 <= i < |page| ==>
         && page[i].sessionId == taken[i].sessionId
         && page[i].sessionState == Closed == taken[i].sessionState
         && page[i].sessionCloseCode == Timeout
  }

  lemma ClosedReported(taken: seq<Record>)
    requires forall r :: r in taken ==> r.sessionState == Closed
    ensures ReportsClosed(PageResponses(taken), taken)
  {
  }

  class Server {
    const sessions: HashTable
    var start: Node?

    constructor (hash: nat -> nat)
      ensures Valid() && Table() == [] && start == null && fresh(Footprint())
    {
      sessions := new HashTable(hash);
      start := null;
    }

    ghost predicate Valid()
      reads sessions, sessions.buckets, sessions.app
    {
      sessions.Valid()
    }

    ghost function Footprint(): set<object>
      reads sessions
    {
      {this} + sessions.Footprint()
    }

    // The records in application order.
    ghost function Table(): seq<Record>
      reads sessions`app
    {
      Recs(sessions.app)
    }

    // The cursor points at the record in position p; null stands for the end.
    ghost predicate CursorAt(p: nat)
      reads this`start, sessions`app
    {
      p <= |sessions.app| && start == (if p < |sessions.app| then sessions.app[p] else null)
    }

    // The cursor does not point at a freed record.
    ghost predicate CursorLive()
      reads this`start, sessions`app
    {
      start == null || start in sessions.app
    }

    // opof_add_session_server
    method AddSession(id: nat) returns (status: Status)
      requires Valid()
      modifies sessions.Footprint()
      ensures Valid() && fresh(sessions.Footprint() - old(sessions.Footprint()))
      ensures (Table(), status) == AddOne(old(Table()), id)
      ensures status == Ok ==> Table() == old(Table()) + [Record(id, Closed, NotClosed)]
      ensures CursorLive() <==> old(CursorLive())
    {
      hide HashTable.Valid, Lookup;
      var numSessions := sessions.Count();
      if numSessions > HASHTABLE_SIZE {
        return ResourceExhausted;
      }
      var f := Find(sessions, id);
      if f != null {
        return AlreadyExists;
      }
      var n := AddRecord(sessions, NewRecord(id));
      status := Ok;
    }

    // SessionTableImpl::addSession: one reply for a stream of requests.
    method AddStream(ids: seq<nat>) returns (errors: seq<AddError>)
      requires Valid()
      modifies sessions.Footprint()
      ensures Valid() && fresh(sessions.Footprint() - old(sessions.Footprint()))
      ensures (Table(), errors) == AddAll(old(Table()), ids)
      ensures CursorLive() <==> old(CursorLive())
    {
      errors := [];
      ghost var s := Table();
      var i := 0;
      hide Valid, AddOne;
      while i < |ids|
        invariant i <= |ids| && Valid() && fresh(sessions.Footprint() - old(sessions.Footprint()))
        invariant (Table(), errors) == AddAll(s, ids[..i])
        invariant CursorLive() <==> old(CursorLive())
      {
        var status := AddSession(ids[i]);
        if status != Ok {
          errors := errors + [AddError(ids[i], status)];
        }
        assert Front(ids[..i + 1]) == ids[..i];
        i := i + 1;
      }
      assert ids[..i] == ids;
    }

    // opof_get_session_server
    method GetSession(id: nat) returns (status: Status, resp: Option<Response>)
      requires Valid()
      ensures match Lookup(Table(), id)
        case Some(r) => status == Ok && resp == Some(Response(id, r.sessionState, r.sessionClose))
        case None => status == NotFound && resp == None
    {
      var r := Find(sessions, id);
      if r == null {
        return NotFound, None;
      }
      return Ok, Some(Response(id, r.rec.sessionState, r.rec.sessionClose));
    }

    // opof_del_session_server. The record is freed: a cursor on it is left dangling.
    method DelSession(id: nat) returns (status: Status, resp: Option<Response>)
      requires Valid()
      modifies sessions.Footprint()
      ensures Valid() && sessions.Footprint() <= old(sessions.Footprint())
      ensures Table() == Remove(old(Table()), id)
      ensures match Lookup(old(Table()), id)
        case Some(r) => status == Ok && resp == Some(Response(id, Closed, r.sessionClose))
        case None => status == NotFound && resp == None
      ensures var i := IndexOf(old(Table()), id);
              sessions.app == if i < |old(Table())| then Without(old(sessions.app), i) else old(sessions.app)
      ensures CursorLive() <==> old(CursorLive()) && (start == null || start.rec.sessionId != id)
    {
      hide HashTable.Valid;
      var r := Find(sessions, id);
      ValidKeys(sessions);
      if r == null {
        AbsentKey(sessions, id);
        RemoveAbsent(Table(), id);
        return NotFound, None;
      }
      status, resp := Ok, Some(Response(id, Closed, r.rec.sessionClose));
      OnlyNode(sessions.app, r);
      DeleteNode(sessions, r);
      WithoutMembers(old(sessions.app), IndexOf(old(Table()), id));
    }

    // getAllSessionsPage, as SessionTableImpl::getAllSessions calls it: one page of at most
    // 64 from the cursor, which a start key of UINT_MAX first moves to the head.
    method GetAllSessions(startSession: nat, ghost p: nat) returns (page: seq<Response>, nextKey: nat)
      requires Valid()
      requires if startSession == UINT_MAX then p == 0 else CursorAt(p)
      modifies this`start
      ensures page == PageResponses(Take(Drop(Table(), p), BUFFER_MAX))
      ensures p + |page| <= |Table()| && (|page| == 64 || p + |page| == |Table()|) && |page| <= 64
      ensures forall i :: 0 <= i < |page| ==>
                && page[i].sessionId == Table()[p + i].sessionId
                && page[i].sessionState == Table()[p + i].sessionState
                && page[i].sessionCloseCode == Timeout
      ensures CursorAt(p + |page|)
      ensures nextKey == if page == [] then startSession else Last(page).sessionId
    {
      hide HashTable.Valid, PageResponses, Take, Drop, Recs, ListLinks, NoDup;
      ValidList(sessions);
      WholePage(sessions.app, p);
      PageFields(Table(), p);
      if startSession == UINT_MAX {
        start := sessions.head;
      }
      page, nextKey := [], startSession;
      if start == null {
        return;
      }
      page, nextKey, start := CollectPage(start, sessions.app, p);
    }

    // opof_get_closed_sessions_server: HASH_ITER with deletion of the current element.
    // overrun says that the source goes on to write past its 64-entry array; what it does
    // from then on is undefined, and the method stops there.
    method GetClosedSessions(size: int) returns (page: seq<Response>, overrun: bool)
      requires Valid()
      modifies sessions.Footprint()
      ensures Valid() && sessions.Footprint() <= old(sessions.Footprint())
      ensures overrun <==> !DrainFits(old(Table()), size)
      ensures !overrun ==> page == PageResponses(Drained(old(Table()), size).0)
      ensures !overrun ==> Table() == Drained(old(Table()), size).1
      ensures !overrun ==>
                exists taken: seq<Record> :: Interleaved(old(Table()), taken, Table()) && ReportsClosed(page, taken)
      ensures !overrun ==> (size >= 1 ==> |page| <= size)
      ensures !overrun && (size < 1 || |page| < size) ==> forall r :: r in Table() ==> r.sessionState != Closed
      ensures !overrun ==>
                var reported := start != null && start.rec.sessionId in IdsOf(Drained(old(Table()), size).0);
                CursorLive() <==> old(CursorLive()) && !reported
    {
      hide HashTable.Valid, Drained, IdsOf, DrainFits, PageResponses, Recs, KeptFrom;
      DrainFitsIff(Table(), size);
      ValidKeys(sessions);
      ghost var a := sessions.app;
      ghost var k, kept;
      page, overrun, k, kept := TakeClosed(size);
      DrainStates(old(Table()), size);
      if !overrun {
        ClosedReported(Drained(old(Table()), size).0);
        DrainCursor(a, kept, k, size, start);
      }
    }

    // The loop: overrun when a closed record finds the array full. What is left of the list
    // is what was kept before record k, and all from it on.
    method TakeClosed(size: int) returns (page: seq<Response>, overrun: bool, ghost k: nat, ghost kept: seq<Node>)
      requires Valid()
      modifies sessions.Footprint()
      ensures Valid() && sessions.Footprint() <= old(sessions.Footprint())
      ensures overrun <==> |Drained(old(Table()), size).0| > BUFFER_MAX
      ensures !overrun ==> page == PageResponses(Drained(old(Table()), size).0)
      ensures !overrun ==> Table() == Drained(old(Table()), size).1
      ensures !overrun ==> k <= |old(sessions.app)| && sessions.app == kept + old(sessions.app)[k..]
      ensures KeptFrom(kept, old(sessions.app))
    {
      hide HashTable.Valid, Drained, Draining, Recs, PageResponses, ListLinks, Visiting, KeptFrom;
      page, overrun := [], false;
      ghost var a := sessions.app;
      ghost var reported: seq<Record> := [];
      k, kept := 0, [];
      var r := sessions.head;
      VisitStart(size);
      while r != null
        invariant |page| <= BUFFER_MAX && KeptFrom(kept, a)
        invariant sessions.Footprint() <= old(sessions.Footprint())
        invariant Visiting(r, a, k, kept) && k <= |a| && (r == null <==> k == |a|)
        invariant k == |a| ==> Valid() && sessions.app == kept + a[k..]
        invariant Draining(a, k, kept, reported, size) && page == PageResponses(reported)
        decreases |a| - k
      {
        if r.rec.sessionState == Closed && |page| == BUFFER_MAX {
          Overruns(r, a, k, kept, reported, size);
          overrun := true;
          return;
        }
        var full;
        page, r, full, kept, reported := VisitClosed(r, page, size, a, k, kept, reported);
        k := k + 1;
        VisitEnds(r, a, k, kept);
        if full {
          return;
        }
      }
      EndDrain(a, k, kept, reported, size);
    }

    // A closed record that finds the array full.
    lemma Overruns(r: Node, a: seq<Node>, k: nat, kept: seq<Node>, reported: seq<Record>, size: int)
      requires k < |a| && Visiting(r, a, k, kept) && Draining(a, k, kept, reported, size)
      requires r.rec.sessionState == Closed && |PageResponses(reported)| == BUFFER_MAX
      ensures Valid() && |Drained(Recs(a), size).0| > BUFFER_MAX
    {
      hide HashTable.Valid;
      var s := Recs(a[k..]);
      assert s[0] == a[k].rec;
      assert |Drained(s, size - |reported|).0| >= 1;
    }

    // The iteration stands at a[k]: what was kept before it and all from it on is the list.
    ghost predicate Visiting(r: Node?, a: seq<Node>, k: nat, kept: seq<Node>)
      reads sessions, sessions.buckets, sessions.app
    {
      && Valid()
      && k <= |a| && sessions.app == kept + a[k..]
      && r == (if k < |a| then a[k] else null)
    }

    lemma VisitStart(size: int)
      requires Valid()
      ensures var a := sessions.app;
              && Visiting(sessions.head, a, 0, []) && (sessions.head == null <==> a == [])
              && Draining(a, 0, [], [], size) && PageResponses([]) == [] && KeptFrom([], a) && [] + a[0..] == a
    {
      hide Drained;
      ValidList(sessions);
      StartDrain(sessions.app, size);
      NoPage();
    }

    lemma VisitEnds(r: Node?, a: seq<Node>, k: nat, kept: seq<Node>)
      requires Visiting(r, a, k, kept)
      ensures k <= |a| && (r == null <==> k == |a|)
      ensures Valid() && sessions.app == kept + a[k..]
    {
    }

    // The loop body: a closed record is reported and deleted after its successor is saved.
    method VisitClosed(r: Node, page: seq<Response>, size: int, ghost a: seq<Node>, ghost k: nat,
        ghost kept: seq<Node>, ghost reported: seq<Record>)
      returns (page': seq<Response>, tmp: Node?, full: bool, ghost kept': seq<Node>, ghost reported': seq<Record>)
      requires k < |a| && Visiting(r, a, k, kept) && Draining(a, k, kept, reported, size)
      requires page == PageResponses(reported)
      modifies sessions.Footprint()
      ensures sessions.Footprint() <= old(sessions.Footprint())
      ensures Visiting(tmp, a, k + 1, kept') && page' == PageResponses(reported')
      ensures !full ==> Draining(a, k + 1, kept', reported', size)
      ensures full ==> Drained(Recs(a), size) == (reported', Table())
      ensures |page'| == |page| + (if r.rec.sessionState == Closed then 1 else 0)
      ensures KeptFrom(kept, a) ==> KeptFrom(kept', a)
    {
      AppShift(a, k, kept);
      ListNext(sessions, |kept|);
      RemoveHere(sessions, |kept|);
      DrainStep(a, k, kept, reported, size);
      RecsConcat(kept, a[k + 1..]);
      PageSnoc(reported, r.rec);
      hide HashTable.Valid, Drained, Draining, Recs, PageResponses, Without;
      tmp := r.next;
      page', full, kept', reported' := page, false, kept, reported;
      if r.rec.sessionState == Closed {
        page' := page' + [PageResponse(r.rec)];
        reported' := reported' + [r.rec];
        DeleteNode(sessions, r);
        full := |page'| == size;
      } else {
        kept' := kept' + [a[k]];
      }
    }
  }

  // Copies out at most 64 records from r on; rest is where the next page starts.
  method CollectPage(first: Node, ghost app: seq<Node>, ghost p: nat)
    returns (page: seq<Response>, nextKey: nat, rest: Node?)
    requires ListLinks(app) && p < |app| && first == app[p]
    ensures page == PageResponses(Take(Drop(Recs(app), p), BUFFER_MAX)) && |page| >= 1
    ensures nextKey == Last(page).sessionId
    ensures p + |page| <= |app| && rest == (if p + |page| < |app| then app[p + |page|] else null)
  {
    page, nextKey := [], 0;
    var r: Node? := first;
    NoPage();
    WholePage(app, p);
    while r != null
      invariant |page| < BUFFER_MAX && p + |page| <= |app|
      invariant r == (if p + |page| < |app| then app[p + |page|] else null)
      invariant page == PageResponses(Recs(app[p..p + |page|]))
      invariant page != [] ==> nextKey == Last(page).sessionId
      decreases |app| - |page|
    {
      ghost var k := p + |page|;
      EndsNull(app, k);
      PageGrows(app, p, k);
      PageIs(app, p, k + 1);
      page := page + [PageResponse(r.rec)];
      nextKey := r.rec.sessionId;
      if |page| == BUFFER_MAX {
        return page, nextKey, r.next;
      }
      r := r.next;
    }
    PageIs(app, p, |app|);
    rest := null;
  }

  // A node is the only one with its id.
  lemma OnlyNode(app: seq<Node>, n: Node)
    requires DistinctKeys(app) && n in app
    ensures NoDup(app)
    ensures forall m :: m in app ==> (m.rec.sessionId == n.rec.sessionId <==> m == n)
  {
  }

  lemma ValidList(t: HashTable)
    requires t.Valid()
    ensures t.head == First(t.app) && ListLinks(t.app) && NoDup(t.app)
  {
  }

  lemma NoPage()
    ensures PageResponses([]) == [] && Recs([]) == []
  {
  }

  lemma PageGrows(app: seq<Node>, p: nat, k: nat)
    requires p <= k < |app|
    ensures PageResponses(Recs(app[p..k])) + [PageResponse(app[k].rec)] == PageResponses(Recs(app[p..k + 1]))
  {
  }

  // A page that is full or reaches the end is the one the specification takes.
  lemma PageIs(app: seq<Node>, p: nat, m: nat)
    requires p <= m <= |app|
    ensures m - p == BUFFER_MAX || (m - p < BUFFER_MAX && m == |app|) ==>
              Recs(app[p..m]) == Take(Drop(Recs(app), p), BUFFER_MAX)
  {
  }

  lemma WholePage(app: seq<Node>, p: nat)
    requires p <= |app|
    ensures app[p..p] == []
    ensures p == |app| ==> PageResponses(Take(Drop(Recs(app), p), BUFFER_MAX)) == []
  {
  }

  lemma PageSnoc(s: seq<Record>, r: Record)
    ensures PageResponses(s + [r]) == PageResponses(s) + [PageResponse(r)]
    ensures |PageResponses(s)| == |s|
  {
  }

  lemma RecsConcat(a: seq<Node>, b: seq<Node>)
    ensures Recs(a + b) == Recs(a) + Recs(b)
  {
  }

  lemma ListNext(t: HashTable, i: nat)
    requires t.Valid() && i < |t.app|
    ensures t.app[i].next == if i + 1 < |t.app| then t.app[i + 1] else null
  {
    EndsNull(t.app, i);
  }

  lemma RemoveHere(t: HashTable, i: nat)
    requires t.Valid() && i < |t.app|
    ensures IndexOf(Recs(t.app), t.app[i].rec.sessionId) == i
  {
    NodeIndex(t.app, i);
  }

  ghost predicate KeptFrom(kept: seq<Node>, a: seq<Node>) {
    forall n :: n in kept ==> n in a
  }

  // A cursor is live after a drain exactly when it was before and its record was not reported.
  lemma DrainCursor(a: seq<Node>, kept: seq<Node>, k: nat, size: int, start: Node?)
    requires DistinctKeys(a) && KeptFrom(kept, a) && k <= |a|
    requires Recs(kept + a[k..]) == Drained(Recs(a), size).1
    ensures start == null || start in kept + a[k..] <==>
            (start == null || start in a) && (start == null || start.rec.sessionId !in IdsOf(Drained(Recs(a), size).0))
  {
    hide Drained;
    var app := kept + a[k..];
    var (r, left) := Drained(Recs(a), size);
    RecsDistinct(a);
    DrainApart(Recs(a), size);
    if start != null {
      var id := start.rec.sessionId;
      if start in app {
        var i :| 0 <= i < |app| && app[i] == start;
        assert Recs(app)[i] == start.rec && start.rec in left;
        NotAmong(r, id);
      } else if start in a && id !in IdsOf(r) {
        RecordListed(a, start);
        DrainSplits(Recs(a), size, start.rec);
        NotAmong(r, id);
        StillListed(a, app, start);
      }
    }
  }

  lemma RecordListed(a: seq<Node>, n: Node)
    requires n in a
    ensures n.rec in Recs(a)
  {
    var i :| 0 <= i < |a| && a[i] == n;
    assert Recs(a)[i] == n.rec;
  }

  // Keys being distinct, a node whose record is among those of a part is in the part.
  lemma StillListed(a: seq<Node>, app: seq<Node>, n: Node)
    requires DistinctKeys(a) && KeptFrom(app, a) && n in a && n.rec in Recs(app)
    ensures n in app
  {
    var j :| 0 <= j < |app| && Recs(app)[j] == n.rec;
    assert app[j] in app;
  }

  lemma NotAmong(r: seq<Record>, id: nat)
    ensures id in IdsOf(r) <==> exists x :: x in r && x.sessionId == id
  {
    if x :| x in r && x.sessionId == id {
      var i :| 0 <= i < |r| && r[i] == x;
      assert IdsOf(r)[i] == id;
    }
    if id in IdsOf(r) {
      var i :| 0 <= i < |r| && IdsOf(r)[i] == id;
      assert r[i] in r;
    }
  }

  lemma AppShift(a: seq<Node>, k: nat, kept: seq<Node>)
    requires k < |a|
    ensures var app := kept + a[k..];
            && |app| == |kept| + |a| - k && app[|kept|] == a[k]
            && (|kept| + 1 < |app| ==> k + 1 < |a| && app[|kept| + 1] == a[k + 1])
            && Without(app, |kept|) == kept + a[k + 1..]
            && (kept + [a[k]]) + a[k + 1..] == app
  {
  }

  // The drain of a split at k: `reported` and `kept` so far, a[k..] still to visit.
  ghost predicate Draining(a: seq<Node>, k: nat, kept: seq<Node>, reported: seq<Record>, size: int)
    requires k <= |a|
  {
    var (all, rest) := Drained(Recs(a), size);
    var (more, left) := Drained(Recs(a[k..]), size - |reported|);
    all == reported + more && rest == Recs(kept) + left
  }

  lemma StartDrain(a: seq<Node>, size: int)
    ensures Draining(a, 0, [], [], size) && [] + a[0..] == a
  {
    assert a[0..] == a && Recs([]) == [];
    var (all, rest) := Drained(Recs(a), size);
    assert all == [] + all && rest == [] + rest;
  }

  lemma EndDrain(a: seq<Node>, k: nat, kept: seq<Node>, reported: seq<Record>, size: int)
    requires k == |a| && Draining(a, k, kept, reported, size)
    ensures Drained(Recs(a), size) == (reported, Recs(kept)) && kept + a[k..] == kept
  {
    assert Recs(a[k..]) == [];
    assert reported + [] == reported && Recs(kept) + [] == Recs(kept);
  }

  lemma DrainStep(a: seq<Node>, k: nat, kept: seq<Node>, reported: seq<Record>, size: int)
    requires k < |a| && Draining(a, k, kept, reported, size)
    ensures a[k].rec.sessionState != Closed ==> Draining(a, k + 1, kept + [a[k]], reported, size)
    ensures a[k].rec.sessionState == Closed && |reported| + 1 != size ==>
              Draining(a, k + 1, kept, reported + [a[k].rec], size)
    ensures a[k].rec.sessionState == Closed && |reported| + 1 == size ==>
              Drained(Recs(a), size) == (reported + [a[k].rec], Recs(kept) + Recs(a[k + 1..]))
  {
    var s := Recs(a[k..]);
    assert s[0] == a[k].rec && s[1..] == Recs(a[k + 1..]);
    RecsConcat(kept, [a[k]]);
    assert Recs([a[k]]) == [a[k].rec];
  }
}
