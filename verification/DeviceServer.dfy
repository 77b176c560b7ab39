// The RPC handlers of the offload device, each proved against the functions of Device.
module DeviceServer {
  import opened Seqs
  import opened Bits
  import opened TableSpec
  import opened Chunking
  import opened Device
  import opened DeviceRuns

  predicate HasClient(t: seq<Entry>, id: nat) {
    exists i :: 0 <= i < |t| && t[i].session.clientSessionId == id
  }

  // Assignment to a dictionary key.
  function Put(t: seq<Entry>, slot: nat, s: Session): seq<Entry> {
    var i := IndexOfSlot(t, slot);
    if i < |t| then t[i := Entry(slot, s)] else t + [Entry(slot, s)]
  }

  class OffloadDevice {
    const maxSessionId: nat
    var table: seq<Entry>
    var lastSessionId: nat

    function State(): Dev
      reads this
    {
      Dev(table, lastSessionId)
    }

    ghost predicate Valid()
      reads this
    {
      maxSessionId >= 1 && DevOk(State(), maxSessionId)
    }

    constructor (max: nat)
      requires max >= 1
      ensures Valid() && maxSessionId == max && State() == Run([], max)
    {
      maxSessionId := max;
      table := [];
      lastSessionId := 1;
    }

    method NextSessionId() returns (id: int)
      requires Valid()
      modifies this`lastSessionId
      ensures Valid() && (id, lastSessionId) == Probe(table, old(lastSessionId), 0, maxSessionId)
      ensures id == -1 <==> Full(table, maxSessionId)
      ensures id != -1 ==> 1 <= id < maxSessionId && !HasSlot(table, id) && lastSessionId == id
      ensures id != -1 ==> NextFree(table, StartSlot(old(lastSessionId), maxSessionId), maxSessionId, id)
      ensures id == -1 ==> StartSlot(lastSessionId, maxSessionId) == StartSlot(old(lastSessionId), maxSessionId)
      ensures id == -1 && maxSessionId == 1 ==> lastSessionId == old(lastSessionId)
    {
      AllocatorComplete(table, lastSessionId, maxSessionId);
      hide DevOk;
      var cnt: nat := 0;
      ghost var start := lastSessionId;
      while true
        invariant cnt < maxSessionId && lastSessionId <= maxSessionId
        invariant Probe(table, lastSessionId, cnt, maxSessionId) == Probe(table, start, 0, maxSessionId)
        decreases maxSessionId - cnt
      {
        cnt := cnt + 1;
        if cnt == maxSessionId {
          id := -1;
          return;
        }
        if lastSessionId == maxSessionId {
          lastSessionId := 1;
        }
        if HasSlot(table, lastSessionId) {
          lastSessionId := lastSessionId + 1;
        } else {
          id := lastSessionId;
          return;
        }
      }
    }

    method FindSessionByTuple(tuple: Tuple7) returns (id: Option<nat>)
      ensures id == FindTuple(table, tuple)
      ensures id.Some? <==> HasTuple(table, tuple)
    {
      FindTupleIff(table, tuple);
      var i: nat := 0;
      while i < |table|
        invariant i <= |table| && FindTuple(table, tuple) == FindTuple(table[i..], tuple)
      {
        if tuple == table[i].session.tuple {
          id := Some(table[i].slot);
          return;
        }
        i := i + 1;
      }
      id := None;
    }

    // One request of the stream.
    method AddRequest(request: Request) returns (errors: seq<ResponseError>)
      requires Valid()
      modifies this
      ensures Valid() && (State(), errors) == AddOne(old(State()), request, maxSessionId)
    {
      hide Probe, FindTuple, HasSlot, HasTuple;
      AddOneOk(State(), request, maxSessionId);
      var addNewSession := true;
      errors := [];
      var existingSessionId := FindSessionByTuple(request.tuple);
      if Truthy(existingSessionId) {
        errors := errors + [ResponseError(request.sessionId, SessionAlreadyExists)];
        addNewSession := false;
      }
      var newSessionId := NextSessionId();
      if newSessionId < 0 {
        errors := errors + [ResponseError(request.sessionId, SessionTableFull)];
        addNewSession := false;
      }
      assert errors == (if Truthy(existingSessionId) then [ResponseError(request.sessionId, SessionAlreadyExists)] else [])
                     + (if newSessionId < 0 then [ResponseError(request.sessionId, SessionTableFull)] else []);
      if addNewSession {
        PutFree(table, newSessionId, NewSession(request));
        table := Put(table, newSessionId, NewSession(request));
      }
    }

    method AddSession(requests: seq<Request>) returns (errors: seq<ResponseError>)
      requires Valid()
      modifies this
      ensures Valid() && (State(), errors) == AddAll(old(State()), requests, maxSessionId)
    {
      hide DevOk, AddOne;
      errors := [];
      var i: nat := 0;
      while i < |requests|
        invariant i <= |requests| && Valid()
        invariant (State(), errors) == AddAll(old(State()), requests[..i], maxSessionId)
      {
        assert Front(requests[..i + 1]) == requests[..i] && Last(requests[..i + 1]) == requests[i];
        var more := AddRequest(requests[i]);
        errors := errors + more;
        i := i + 1;
      }
      assert requests[..|requests|] == requests;
    }

    method GetSession(clientSessionId: nat) returns (response: Option<Session>)
      ensures response.Some? <==> HasClient(table, clientSessionId)
      ensures response.Some? ==> response.value == table[IndexOfClient(table, clientSessionId)].session
    {
      var i: nat := 0;
      while i < |table|
        invariant i <= |table| && forall k :: 0 <= k < i ==> table[k].session.clientSessionId != clientSessionId
      {
        if table[i].session.clientSessionId == clientSessionId {
          response := Some(table[i].session);
          return;
        }
        i := i + 1;
      }
      response := None;
    }

    // Removes the first record with this client id, and says whether there was one.
    method DeleteSession(clientSessionId: nat) returns (accepted: bool)
      requires Valid()
      modifies this`table
      ensures Valid() && table == DeleteStep(old(table), clientSessionId)
      ensures accepted <==> HasClient(old(table), clientSessionId)
      ensures accepted ==> table == Without(old(table), IndexOfClient(old(table), clientSessionId))
      ensures !accepted ==> table == old(table)
    {
      var ourSessionId: Option<nat> := None;
      var i: nat := 0;
      while i < |table|
        invariant i <= |table| && forall k :: 0 <= k < i ==> table[k].session.clientSessionId != clientSessionId
      {
        if table[i].session.clientSessionId == clientSessionId {
          ourSessionId := Some(table[i].slot);
          break;
        }
        i := i + 1;
      }
      DeleteOk(State(), clientSessionId, maxSessionId);
      if !Truthy(ourSessionId) {
        accepted := false;
      } else {
        assert IndexOfSlot(table, ourSessionId.value) == i == IndexOfClient(table, clientSessionId);
        table := Without(table, IndexOfSlot(table, ourSessionId.value));
        accepted := true;
      }
    }

    // The traffic process at one record.
    method VisitSession(slot: nat, action: Action)
      requires Valid()
      modifies this`table
      ensures Valid() && table == TrafficStep(old(table), slot, action)
    {
      hide DevOk, SessionOk, IndexOfSlot;
      TrafficOk(State(), slot, action, maxSessionId);
      var i := IndexOfSlot(table, slot);
      if i < |table| {
        var session := table[i].session;
        if session.state == Closed {
          assert table[i := table[i]] == table;
          return;
        }
        match action {
        case UpdateCounters(inc) =>
          session := session.(counters := Plus(session.counters, inc));
        case NoOp =>
        case TimeoutAt(time) =>
          session := session.(state := Closed);
          session := session.(sessionCloseCode := Timeout);
          session := session.(endTime := Some(time));
        case ClientFin(time) =>
          session := session.(state := Closed);
          session := session.(sessionCloseCode := FinAck);
          session := session.(endTime := Some(time));
        case ServerFin(time) =>
          session := session.(state := Closed);
          session := session.(sessionCloseCode := FinAck);
          session := session.(endTime := Some(time));
        }
        table := table[i := table[i].(session := session)];
      }
    }

    // One pass of the traffic process with nothing in between: every record is visited
    // once; counts the ones already closed.
    method SimulateSessionsTraffic(choices: seq<Action>) returns (closedCnt: nat)
      requires Valid() && |choices| == |table|
      modifies this`table
      ensures Valid() && table == Passed(old(table), choices, |choices|)
      ensures |table| == |old(table)| && forall i :: 0 <= i < |table| ==>
                table[i].slot == old(table)[i].slot && table[i].session == Visit(old(table)[i].session, choices[i])
      ensures closedCnt == |set i | 0 <= i < |old(table)| && old(table)[i].session.state == Closed|
    {
      hide DevOk, Passed, Reported, Remaining, TrafficStep, IsClosed;
      ghost var was := table;
      closedCnt := 0;
      PassNone(was, choices);
      PassedAt(was, choices);
      ClosedCount(was);
      var i: nat := 0;
      while i < |table|
        invariant i <= |table| == |was| && Valid() && table == Passed(was, choices, i)
        invariant closedCnt == |Reported(was[..i])|
      {
        PassTurn(was, choices, i, lastSessionId, maxSessionId);
        CountTurn(was, i);
        closedCnt := closedCnt + if IsClosed(table[i]) then 1 else 0;
        VisitSession(table[i].slot, choices[i]);
        i := i + 1;
      }
    }

    // One turn of the drain.
    method TakeIfClosed(sessionId: nat) returns (reported: seq<Session>)
      requires IndexOfSlot(table, sessionId) < |table|
      modifies this`table
      ensures var k := IndexOfSlot(old(table), sessionId); var e := old(table)[k];
              && table == (if IsClosed(e) then Without(old(table), k) else old(table))
              && reported == (if IsClosed(e) then [e.session] else [])
    {
      var k := IndexOfSlot(table, sessionId);
      var session := table[k].session;
      reported := [];
      if session.state == Closed {
        table := Without(table, k);
        reported := [session];
      }
    }

    // Reports and removes the closed records, one by one over a snapshot of the keys.
    method GetClosedSessions() returns (reported: seq<Session>)
      requires Valid()
      modifies this`table
      ensures Valid() && table == Remaining(old(table)) && reported == Reported(old(table))
      ensures forall e :: e in table ==> e.session.state != Closed
      ensures forall s :: s in reported ==> s.state == Closed
      ensures exists taken: seq<Entry> :: Interleaved(old(table), taken, table) && reported == Sessions(taken)
    {
      DrainStates(table);
      reported := TakeAllClosed();
    }

    // The loop of the drain.
    method TakeAllClosed() returns (reported: seq<Session>)
      requires Valid()
      modifies this`table
      ensures Valid() && table == Remaining(old(table)) && reported == Reported(old(table))
    {
      hide DevOk, Remaining, Reported, IndexOfSlot, Without;
      DrainOk(State(), maxSessionId);
      ghost var was := table;
      var keys := Slots(table);
      reported := [];
      var i: nat := 0;
      DrainEnds(table);
      while i < |keys|
        invariant i <= |keys| == |was| && keys == Slots(was) && DevOk(Dev(was, lastSessionId), maxSessionId)
        invariant table == Remaining(was[..i]) + was[i..]
        invariant reported == Reported(was[..i])
      {
        Turn(was, i, lastSessionId, maxSessionId);
        var session := TakeIfClosed(keys[i]);
        reported := reported + session;
        i := i + 1;
      }
    }

    // Pages are counted from 1; a zero page size or page number asks for everything.
    method GetAllSessions(pageSize: nat, page: nat) returns (listing: seq<Session>)
      ensures listing == PageOf(Sessions(table), pageSize, page)
      ensures pageSize == 0 || page == 0 ==> listing == Sessions(table)
    {
      var sessionCount := |table|;
      var startIndex: int, endIndex: int := 0, sessionCount - 1;
      if pageSize != 0 && page != 0 {
        startIndex := if page == 1 then 0 else pageSize * (page - 1);
        endIndex := pageSize * page - 1;
        if endIndex > sessionCount - 1 {
          endIndex := sessionCount - 1;
        }
        PageBounds(pageSize, page);
      } else {
        assert Sessions(table)[0..|table|] == Sessions(table);
      }
      listing := Collect(startIndex, endIndex + 1);
    }

    // The records at positions from..to-1.
    method Collect(from: nat, to: nat) returns (listing: seq<Session>)
      requires to <= |table|
      ensures listing == if from <= to then Sessions(table)[from..to] else []
    {
      hide Sessions;
      listing := [];
      var x: nat := from;
      while x < to
        invariant x <= to ==> from <= x && listing == Sessions(table)[from..x]
        invariant x > to ==> x == from && listing == []
      {
        SessionsAt(table, from, x);
        listing := listing + [table[x].session];
        x := x + 1;
      }
    }
  }

  lemma SessionsAt(t: seq<Entry>, from: nat, x: nat)
    requires from <= x < |t|
    ensures Sessions(t)[from..x] + [t[x].session] == Sessions(t)[from..x + 1]
  {
  }

  lemma PageBounds(pageSize: nat, page: nat)
    requires page >= 1
    ensures pageSize * page == pageSize * (page - 1) + pageSize
    ensures pageSize * (page - 1) >= 0
    ensures page == 1 ==> pageSize * (page - 1) == 0
  {
  }

  function PageOf<T>(s: seq<T>, pageSize: nat, page: nat): seq<T> {
    if pageSize == 0 || page == 0 then s
    else
      var from: int := pageSize * (page - 1);
      var to: int := if pageSize * page < |s| then pageSize * page else |s|;
      if 0 <= from <= to then s[from..to] else []
  }

  lemma PageIsChunk<T>(s: seq<T>, pageSize: nat, page: nat)
    requires pageSize >= 1 && page >= 1
    ensures PageOf(s, pageSize, page) == if page - 1 < |Chunks(s, pageSize)| then Chunks(s, pageSize)[page - 1] else []
  {
    hide Chunks;
    ChunkAt(s, pageSize, page - 1);
    PageBounds(pageSize, page);
    assert (page - 1) * pageSize == pageSize * (page - 1);
  }

  // Pages 1..ceil(n / pageSize) make up the full listing, and later pages are empty.
  lemma PagesPartition<T>(s: seq<T>, pageSize: nat, n: nat)
    requires pageSize >= 1 && IsCeil(n, |s|, pageSize)
    ensures Flatten(seq(n, i requires 0 <= i < n => PageOf(s, pageSize, i + 1))) == PageOf(s, 0, 0) == s
    ensures forall page: nat :: page > n ==> PageOf(s, pageSize, page) == []
  {
    hide Chunks, IsCeil, PageOf, Flatten;
    ChunksShape(s, pageSize);
    CeilUnique(n, |Chunks(s, pageSize)|, |s|, pageSize);
    forall page: nat | page >= 1
      ensures PageOf(s, pageSize, page) == if page - 1 < n then Chunks(s, pageSize)[page - 1] else []
    {
      PageIsChunk(s, pageSize, page);
    }
    assert seq(n, i requires 0 <= i < n => PageOf(s, pageSize, i + 1)) == Chunks(s, pageSize);
    PageZero(s);
  }

  lemma PageZero<T>(s: seq<T>)
    ensures PageOf(s, 0, 0) == s
  {
  }

  lemma TimesMonotone(a: nat, b: nat, k: nat)
    requires a <= b
    ensures a * k <= b * k
  {
  }

  lemma CeilUnique(q: nat, r: nat, n: nat, k: nat)
    requires k >= 1 && IsCeil(q, n, k) && IsCeil(r, n, k)
    ensures q == r
  {
    if q < r {
      TimesMonotone(q, r - 1, k);
    } else if r < q {
      TimesMonotone(r, q - 1, k);
    }
  }

  // A drain takes the closed records out of the table, in order, and leaves the others.
  lemma DrainStates(t: seq<Entry>)
    ensures forall e :: e in Remaining(t) ==> e.session.state != Closed
    ensures forall s :: s in Reported(t) ==> s.state == Closed
    ensures exists taken: seq<Entry> :: Interleaved(t, taken, Remaining(t)) && Reported(t) == Sessions(taken)
  {
    var taken := Filter(t, (e: Entry) => IsClosed(e));
    FilterInterleaves(t, (e: Entry) => IsClosed(e), (e: Entry) => !IsClosed(e));
    assert Interleaved(t, taken, Remaining(t)) && Reported(t) == Sessions(taken);
    forall s | s in Reported(t) ensures s.state == Closed {
      var i :| 0 <= i < |taken| && Reported(t)[i] == s;
      assert taken[i] in taken;
    }
  }

  lemma {:induction false} ClosedCount(t: seq<Entry>)
    ensures |Reported(t)| == |set i | 0 <= i < |t| && t[i].session.state == Closed|
  {
    var now := set i | 0 <= i < |t| && t[i].session.state == Closed;
    if t == [] {
      assert now == {};
    } else {
      ClosedCount(Front(t));
      var before := set i | 0 <= i < |Front(t)| && Front(t)[i].session.state == Closed;
      assert now == before + (if Last(t).session.state == Closed then {|t| - 1} else {});
    }
  }

  lemma PassedAt(t: seq<Entry>, choices: seq<Action>)
    requires |t| == |choices|
    ensures forall i :: 0 <= i < |t| ==>
              Passed(t, choices, |t|)[i].slot == t[i].slot
              && Passed(t, choices, |t|)[i].session == Visit(t[i].session, choices[i])
  {
  }

  function Visited(e: Entry, a: Action): Entry {
    e.(session := Visit(e.session, a))
  }

  // The table once the first i records have been visited.
  function Passed(t: seq<Entry>, choices: seq<Action>, i: nat): (r: seq<Entry>)
    requires i <= |t| == |choices|
    ensures |r| == |t|
  {
    seq(|t|, k requires 0 <= k < |t| => if k < i then Visited(t[k], choices[k]) else t[k])
  }

  lemma PassNone(t: seq<Entry>, choices: seq<Action>)
    requires |t| == |choices|
    ensures Passed(t, choices, 0) == t
    ensures Reported(t[..0]) == [] && Reported(t[..|t|]) == Reported(t)
  {
    DrainEnds(t);
  }

  lemma PassTurn(t: seq<Entry>, choices: seq<Action>, i: nat, last: nat, max: nat)
    requires i < |t| == |choices| && DevOk(Dev(Passed(t, choices, i), last), max)
    ensures var now := Passed(t, choices, i);
            now[i] == t[i] && TrafficStep(now, now[i].slot, choices[i]) == Passed(t, choices, i + 1)
  {
    hide DevOk, Visit;
    var now := Passed(t, choices, i);
    OwnIndex(Dev(now, last), i, max);
  }

  lemma OwnIndex(d: Dev, i: nat, max: nat)
    requires DevOk(d, max) && i < |d.table|
    ensures IndexOfSlot(d.table, d.table[i].slot) == i
  {
    hide SessionOk;
  }

  lemma CountTurn(t: seq<Entry>, i: nat)
    requires i < |t|
    ensures |Reported(t[..i + 1])| == |Reported(t[..i])| + if IsClosed(t[i]) then 1 else 0
  {
    hide Reported, Remaining;
    FilterTake(t, i);
  }

  function Slots(t: seq<Entry>): (r: seq<nat>)
    ensures |r| == |t| && forall i :: 0 <= i < |t| ==> r[i] == t[i].slot
  {
    seq(|t|, i requires 0 <= i < |t| => t[i].slot)
  }

  // Turn i of the drain, over the table it has reached.
  lemma Turn(t: seq<Entry>, i: nat, last: nat, max: nat)
    requires DevOk(Dev(t, last), max) && i < |t|
    ensures var now := Remaining(t[..i]) + t[i..]; var k := IndexOfSlot(now, t[i].slot);
            && k < |now| && now[k] == t[i]
            && Remaining(t[..i + 1]) + t[i + 1..] == (if IsClosed(t[i]) then Without(now, k) else now)
    ensures Reported(t[..i + 1]) == Reported(t[..i]) + (if IsClosed(t[i]) then [t[i].session] else [])
  {
    hide DevOk, Remaining, Reported;
    FilterTake(t, i);
    KeyAt(t, i, last, max);
    TakeTurn(Remaining(t[..i]), t, i);
  }

  lemma PutFree(t: seq<Entry>, slot: nat, s: Session)
    requires !HasSlot(t, slot)
    ensures Put(t, slot, s) == t + [Entry(slot, s)]
  {
  }

  lemma DrainEnds(t: seq<Entry>)
    ensures Remaining(t[..0]) + t[0..] == t && Reported(t[..0]) == []
    ensures Remaining(t[..|t|]) + t[|t|..] == Remaining(t) && Reported(t[..|t|]) == Reported(t)
  {
    assert t[..|t|] == t;
  }

  // The drain's turn i keeps record i or moves it to the report.
  lemma FilterTake(t: seq<Entry>, i: nat)
    requires i < |t|
    ensures Remaining(t[..i + 1]) == Remaining(t[..i]) + (if IsClosed(t[i]) then [] else [t[i]])
    ensures Reported(t[..i + 1]) == Reported(t[..i]) + (if IsClosed(t[i]) then [t[i].session] else [])
  {
    assert Front(t[..i + 1]) == t[..i] && Last(t[..i + 1]) == t[i];
  }

  lemma TakeTurn(kept: seq<Entry>, t: seq<Entry>, i: nat)
    requires i < |t|
    ensures (kept + t[i..])[|kept|] == t[i]
    ensures Without(kept + t[i..], |kept|) == kept + t[i + 1..]
    ensures kept + t[i..] == kept + [t[i]] + t[i + 1..]
  {
  }

  // At turn i of the drain, the snapshot's key number i is found just after the kept records.
  lemma KeyAt(t: seq<Entry>, i: nat, last: nat, max: nat)
    requires DevOk(Dev(t, last), max) && i < |t|
    ensures IndexOfSlot(Remaining(t[..i]) + t[i..], t[i].slot) == |Remaining(t[..i])|
  {
    var kept := Remaining(t[..i]);
    var now := kept + t[i..];
    assert now[|kept|] == t[i];
    forall k | 0 <= k < |kept| ensures now[k].slot != t[i].slot {
      assert now[k] == kept[k] && kept[k] in t[..i];
    }
  }
}
