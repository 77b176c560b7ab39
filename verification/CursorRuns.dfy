// The static paging cursor over any sequence of requests to the C session server.
module CursorRuns {
  import opened Seqs
  import opened Links
  import opened TableSpec
  import opened UtHash
  import opened TableRuns
  import opened SessionSpec
  import opened DrainSpec
  import opened SessionServer

  // Where the cursor stands: past the end, on a record of the table, or on a freed one.
  datatype Cursor = End | On(id: nat) | Freed

  datatype State = State(recs: seq<Record>, cursor: Cursor)

  datatype Request =
    | AddReq(ids: seq<nat>)
    | GetReq(id: nat)
    | DelReq(id: nat)
    | PageReq(startSession: nat)
    | ClosedReq(size: int)

  // The request frees the record the cursor stands on.
  predicate Frees(st: State, req: Request) {
    && st.cursor.On?
    && match req
       case DelReq(id) => id == st.cursor.id
       case ClosedReq(size) => st.cursor.id in IdsOf(Drained(st.recs, size).0)
       case _ => false
  }

  // The request follows a freed cursor, or overruns the reply's array.
  predicate Undefined(st: State, req: Request) {
    match req
    case PageReq(startSession) => startSession != UINT_MAX && st.cursor.Freed?
    case ClosedReq(size) => !DrainFits(st.recs, size)
    case _ => false
  }

  function Position(st: State, startSession: nat): nat
    requires startSession == UINT_MAX || !st.cursor.Freed?
  {
    if startSession == UINT_MAX then 0
    else
      match st.cursor
      case End => |st.recs|
      case On(id) => IndexOf(st.recs, id)
  }

  function Place(recs: seq<Record>, p: nat): Cursor {
    if p < |recs| then On(recs[p].sessionId) else End
  }

  function Serve(st: State, req: Request): State
    requires !Undefined(st, req)
  {
    var kept := if Frees(st, req) then Freed else st.cursor;
    match req
    case AddReq(ids) => State(AddAll(st.recs, ids).0, kept)
    case GetReq(id) => st
    case DelReq(id) => State(Remove(st.recs, id), kept)
    case PageReq(startSession) =>
      var p := Position(st, startSession);
      State(st.recs, Place(st.recs, p + |Take(Drop(st.recs, p), BUFFER_MAX)|))
    case ClosedReq(size) => State(Drained(st.recs, size).1, kept)
  }

  // The state after a sequence of requests, if none of them was undefined.
  function RunFrom(st: State, reqs: seq<Request>): Option<State> {
    if reqs == [] then Some(st)
    else
      match RunFrom(st, Front(reqs))
      case None => None
      case Some(s) => if Undefined(s, Last(reqs)) then None else Some(Serve(s, Last(reqs)))
  }

  // The server is in this state.
  ghost predicate Stands(server: Server, st: State)
    reads server, server.sessions, server.sessions.buckets, server.sessions.app
  {
    && server.Valid() && server.Table() == st.recs
    && match st.cursor
       case End => server.start == null
       case On(id) => server.start != null && server.CursorLive() && server.start.rec.sessionId == id
       case Freed => !server.CursorLive()
  }

  // One request that is not undefined.
  method ServeOne(server: Server, req: Request, ghost st: State)
    requires Stands(server, st) && !Undefined(st, req)
    modifies server.Footprint()
    ensures Stands(server, Serve(st, req))
    ensures fresh(server.Footprint() - old(server.Footprint()))
  {
    hide HashTable.Valid, Drained, AddAll, Remove, Recs, Take, Drop, PageResponses, DrainFits, IndexOf;
    match req {
      case AddReq(ids) =>
        var errors := server.AddStream(ids);
      case GetReq(id) =>
        var status, resp := server.GetSession(id);
      case DelReq(id) =>
        var status, resp := server.DelSession(id);
      case PageReq(startSession) =>
        ghost var p := Position(st, startSession);
        CursorPosition(server, st, startSession);
        var page, nextKey := server.GetAllSessions(startSession, p);
        PageLength(Take(Drop(st.recs, p), BUFFER_MAX));
        CursorPlaced(server, st.recs, p + |page|);
      case ClosedReq(size) =>
        var page, overrun := server.GetClosedSessions(size);
    }
  }

  lemma PageLength(s: seq<Record>)
    ensures |PageResponses(s)| == |s|
  {
  }

  lemma CursorPosition(server: Server, st: State, startSession: nat)
    requires Stands(server, st) && !Undefined(st, PageReq(startSession))
    ensures startSession != UINT_MAX ==> server.CursorAt(Position(st, startSession))
  {
    hide HashTable.Valid;
    ValidKeys(server.sessions);
    if startSession != UINT_MAX && st.cursor.On? {
      var app := server.sessions.app;
      var i :| 0 <= i < |app| && app[i] == server.start;
      NodeIndex(app, i);
    }
  }

  lemma CursorPlaced(server: Server, recs: seq<Record>, p: nat)
    requires server.CursorAt(p) && recs == server.Table()
    ensures match Place(recs, p)
            case End => server.start == null
            case On(id) => server.start != null && server.CursorLive() && server.start.rec.sessionId == id
            case Freed => false
  {
  }

  // Any sequence of requests none of which is undefined: the server ends in the state the
  // values say, and its cursor is live exactly when it does not stand on a freed record.
  method ServeAll(server: Server, reqs: seq<Request>, ghost st: State)
    requires Stands(server, st) && RunFrom(st, reqs).Some?
    modifies server.Footprint()
    ensures Stands(server, RunFrom(st, reqs).value)
    ensures server.CursorLive() <==> !RunFrom(st, reqs).value.cursor.Freed?
  {
    hide Serve, Undefined, Stands, HashTable.Valid;
    ghost var s := st;
    var i: nat := 0;
    PrefixesDefined(st, reqs);
    while i < |reqs|
      invariant i <= |reqs| && RunFrom(st, reqs[..i]) == Some(s) && Stands(server, s)
      invariant fresh(server.Footprint() - old(server.Footprint()))
    {
      assert Front(reqs[..i + 1]) == reqs[..i] && Last(reqs[..i + 1]) == reqs[i];
      assert RunFrom(st, reqs[..i + 1]).Some?;
      ServeOne(server, reqs[i], s);
      s := Serve(s, reqs[i]);
      i := i + 1;
    }
    assert reqs[..i] == reqs;
    StandsLive(server, s);
  }

  lemma StandsLive(server: Server, st: State)
    requires Stands(server, st)
    ensures server.CursorLive() <==> !st.cursor.Freed?
  {
  }

  lemma {:induction false} PrefixesDefined(st: State, reqs: seq<Request>)
    requires RunFrom(st, reqs).Some?
    ensures forall i :: 0 <= i <= |reqs| ==> RunFrom(st, reqs[..i]).Some?
  {
    assert reqs[..|reqs|] == reqs;
    if reqs != [] {
      PrefixesDefined(st, Front(reqs));
      forall i | 0 <= i < |reqs| ensures RunFrom(st, reqs[..i]).Some? {
        assert Front(reqs)[..i] == reqs[..i];
      }
    }
  }

  predicate NoPageFrom(reqs: seq<Request>, j: nat) {
    forall i :: j <= i < |reqs| ==> !reqs[i].PageReq?
  }

  // Request j freed the record the cursor stood on, and no page was asked for since.
  predicate FreedBy(st: State, reqs: seq<Request>, j: nat)
    requires j < |reqs|
  {
    var s := RunFrom(st, reqs[..j]);
    s.Some? && Frees(s.value, reqs[j]) && NoPageFrom(reqs, j + 1)
  }

  // The cursor stands on a freed record exactly when some request freed the record it
  // stood on and no page has been asked for since.
  lemma {:induction false} FreedIff(st: State, reqs: seq<Request>)
    requires RunFrom(st, reqs).Some? && !st.cursor.Freed?
    ensures RunFrom(st, reqs).value.cursor.Freed? <==> exists j :: 0 <= j < |reqs| && FreedBy(st, reqs, j)
  {
    hide Frees, Undefined;
    if reqs != [] {
      var f, last := Front(reqs), Last(reqs);
      var s := RunFrom(st, f).value;
      FreedIff(st, f);
      ServeCursor(s, last);
      assert reqs[..|f|] == f;
      forall j | 0 <= j < |f| ensures FreedBy(st, reqs, j) <==> FreedBy(st, f, j) && !last.PageReq? {
        assert f[..j] == reqs[..j] && f[j] == reqs[j];
        NoPageSnoc(f, last, j + 1);
        assert f + [last] == reqs;
      }
      assert FreedBy(st, reqs, |f|) <==> Frees(s, last);
      if j :| 0 <= j < |f| && FreedBy(st, f, j) && !last.PageReq? {
        assert FreedBy(st, reqs, j);
      }
    }
  }

  lemma NoPageSnoc(reqs: seq<Request>, last: Request, j: nat)
    requires j <= |reqs|
    ensures NoPageFrom(reqs + [last], j) <==> NoPageFrom(reqs, j) && !last.PageReq?
  {
    var all := reqs + [last];
    assert all[|reqs|] == last;
    assert forall i :: 0 <= i < |reqs| ==> all[i] == reqs[i];
  }

  lemma ServeCursor(s: State, req: Request)
    requires !Undefined(s, req)
    ensures Serve(s, req).cursor.Freed? <==> !req.PageReq? && (s.cursor.Freed? || Frees(s, req))
    ensures req.PageReq? ==> !Frees(s, req)
  {
  }

  // What it takes for request number j to be defined, from the requests before it.
  ghost predicate Safe(st: State, reqs: seq<Request>, j: nat)
    requires j < |reqs|
  {
    match reqs[j]
    case PageReq(startSession) =>
      startSession != UINT_MAX ==> forall i :: 0 <= i < j ==> !FreedBy(st, reqs[..j], i)
    case ClosedReq(size) =>
      var s := RunFrom(st, reqs[..j]);
      s.Some? ==> DrainFits(s.value.recs, size)
    case _ => true
  }

  // A sequence is defined throughout exactly when no page is continued from a record freed
  // since the last page, and no drain overruns its reply.
  lemma {:induction false} DefinedIff(st: State, reqs: seq<Request>)
    requires !st.cursor.Freed?
    ensures RunFrom(st, reqs).Some? <==> forall j :: 0 <= j < |reqs| ==> Safe(st, reqs, j)
  {
    hide Safe, Undefined;
    if reqs != [] {
      var f, n := Front(reqs), |reqs| - 1;
      DefinedIff(st, f);
      forall j | 0 <= j < n ensures Safe(st, reqs, j) <==> Safe(st, f, j) {
        SafePrefix(st, reqs, j);
      }
      if RunFrom(st, f).Some? {
        LastSafe(st, reqs);
      }
    }
  }

  lemma SafePrefix(st: State, reqs: seq<Request>, j: nat)
    requires j < |reqs| - 1
    ensures Safe(st, reqs, j) <==> Safe(st, Front(reqs), j)
  {
    assert Front(reqs)[..j] == reqs[..j] && Front(reqs)[j] == reqs[j];
  }

  lemma LastSafe(st: State, reqs: seq<Request>)
    requires !st.cursor.Freed? && reqs != [] && RunFrom(st, Front(reqs)).Some?
    ensures Safe(st, reqs, |reqs| - 1) <==> !Undefined(RunFrom(st, Front(reqs)).value, Last(reqs))
  {
    hide FreedBy, DrainFits, RunFrom;
    assert reqs[..|reqs| - 1] == Front(reqs);
    FreedIff(st, Front(reqs));
  }
}
