// The firewall client, working against a device it shares with nobody else.
module FirewallClient {
  import opened Seqs
  import opened Device
  import opened DeviceRuns
  import opened DeviceServer
  import opened Protocol
  import opened Conservation

  class Firewall {
    var sessionTable: FwTable
    var lastSessionId: nat

    // Both parties as a state of the transition system; deleted is its history of deletes.
    ghost function View(dev: OffloadDevice, deleted: set<nat>): Sys
      reads this, dev
    {
      Sys(sessionTable, lastSessionId, dev.State(), deleted)
    }

    constructor ()
      ensures sessionTable == map[] && lastSessionId == START_SESSION_ID
    {
      sessionTable := map[];
      lastSessionId := START_SESSION_ID;
    }

    method NextSessionId() returns (id: nat)
      modifies this`lastSessionId
      ensures id == lastSessionId == NextId(sessionTable.Keys, old(lastSessionId))
      ensures id !in sessionTable
    {
      if lastSessionId == MAX_SESSION_ID {
        lastSessionId := START_SESSION_ID;
      }
      while true
        invariant FirstFree(sessionTable.Keys, lastSessionId) == NextId(sessionTable.Keys, old(lastSessionId))
        decreases Above(sessionTable.Keys, lastSessionId)
      {
        if lastSessionId in sessionTable.Keys {
          assert lastSessionId in Above(sessionTable.Keys, lastSessionId);
          lastSessionId := lastSessionId + 1;
        } else {
          id := lastSessionId;
          return;
        }
      }
    }

    // Enters a session for each tuple and asks the device to take them.
    method SessionAddSessions(dev: OffloadDevice, tuples: seq<Tuple7>, ghost deleted: set<nat>)
      requires dev.Valid() && SysOk(View(dev, deleted), dev.maxSessionId)
      modifies this, dev
      ensures dev.Valid() && SysOk(View(dev, deleted), dev.maxSessionId)
      ensures View(dev, deleted) == SysStep(old(View(dev, deleted)), Offload(tuples), dev.maxSessionId)
      ensures exists ids :: Batched(old(sessionTable), sessionTable, tuples, ids, ClientIds(dev.table))
    {
      hide DevOk, AddAll, SysOk, Refused, Batched;
      BatchIs(View(dev, deleted), tuples, dev.maxSessionId);
      OffloadOk(View(dev, deleted), tuples, dev.maxSessionId);
      var newSessions := EnterSessions(tuples);
      var errors := dev.AddSession(newSessions);
      MarkRefused(errors);
    }

    // The local half of a batch: enters the sessions and builds the requests.
    method EnterSessions(tuples: seq<Tuple7>) returns (newSessions: seq<Request>)
      modifies this
      ensures (sessionTable, lastSessionId, newSessions) == LocalAdd(old(sessionTable), old(lastSessionId), tuples)
    {
      newSessions := [];
      var x: nat := 0;
      while x < |tuples|
        invariant x <= |tuples|
        invariant (sessionTable, lastSessionId, newSessions)
               == LocalAdd(old(sessionTable), old(lastSessionId), tuples[..x])
      {
        assert Front(tuples[..x + 1]) == tuples[..x] && Last(tuples[..x + 1]) == tuples[x];
        var sessionId := NextSessionId();
        newSessions := newSessions + [Request(sessionId, tuples[x])];
        sessionTable := sessionTable[sessionId := FwSession(tuples[x], true)];
        x := x + 1;
      }
      assert tuples[..|tuples|] == tuples;
    }

    // The refused sessions stay in the table, no longer offloaded.
    method MarkRefused(errors: seq<ResponseError>)
      requires ErrorIds(errors) <= sessionTable.Keys
      modifies this`sessionTable
      ensures sessionTable == Refused(old(sessionTable), ErrorIds(errors))
      ensures sessionTable.Keys == old(sessionTable).Keys
    {
      var i: nat := 0;
      while i < |errors|
        invariant i <= |errors| && sessionTable == Refused(old(sessionTable), ErrorIds(errors[..i]))
      {
        var id := errors[i].sessionId;
        assert errors[i] in errors && id in ErrorIds(errors);
        assert errors[..i + 1] == errors[..i] + [errors[i]];
        ErrorIdsAppend(errors[..i], [errors[i]]);
        assert ErrorIds([errors[i]]) == {id};
        sessionTable := sessionTable[id := sessionTable[id].(offloaded := false)];
        i := i + 1;
      }
      assert errors[..|errors|] == errors;
    }

    // Collects the closed sessions; counts the reports for ids the firewall does not know,
    // of which there are none.
    method SessionClosedSessions(dev: OffloadDevice, ghost deleted: set<nat>) returns (unknown: nat)
      requires dev.Valid() && SysOk(View(dev, deleted), dev.maxSessionId)
      modifies this`sessionTable, dev`table
      ensures dev.Valid() && SysOk(View(dev, deleted), dev.maxSessionId)
      ensures View(dev, deleted) == SysStep(old(View(dev, deleted)), Collect, dev.maxSessionId)
      ensures unknown == 0
      ensures forall id :: id in sessionTable <==>
                id in old(sessionTable)
                && !exists e :: e in old(dev.table) && e.session.state == Closed && e.session.clientSessionId == id
      ensures forall id :: id in sessionTable ==> sessionTable[id] == old(sessionTable)[id]
    {
      hide DevOk, Remaining, Reported, DistinctClients;
      ReportedIds(dev.table);
      ghost var t := dev.table;
      SysStepOk(View(dev, deleted), Collect, dev.maxSessionId);
      DrainIds(t);
      ReportedApart(t);
      var reported := dev.GetClosedSessions();
      assert SessionIds(reported) - old(sessionTable).Keys == {};
      unknown := Forget(reported);
    }

    method Forget(reported: seq<Session>) returns (unknown: nat)
      requires NoDup(IdSeq(reported))
      modifies this`sessionTable
      ensures sessionTable == Dropped(old(sessionTable), SessionIds(reported))
      ensures unknown == Unknown(old(sessionTable), SessionIds(reported))
    {
      hide SessionIds, NoDup, IdSeq, Dropped, Unknown;
      ReportedEnds(sessionTable, reported);
      unknown := 0;
      var i: nat := 0;
      while i < |reported|
        invariant i <= |reported|
        invariant unknown == Unknown(old(sessionTable), SessionIds(reported[..i]))
        invariant sessionTable == Dropped(old(sessionTable), SessionIds(reported[..i]))
      {
        var id := reported[i].clientSessionId;
        ReportedNow(old(sessionTable), reported, i);
        if id !in sessionTable.Keys {
          unknown := unknown + 1;
        } else {
          sessionTable := sessionTable - {id};
        }
        i := i + 1;
      }
    }

    // With the device shared with nobody and no delete made, every offloaded session is
    // found, under the 7-tuple it was entered with.
    method FetchOffloaded(dev: OffloadDevice) returns (got: map<nat, Session>)
      requires dev.Valid() && SysOk(View(dev, {}), dev.maxSessionId) && SameTuples(View(dev, {}))
      ensures got.Keys == Offloaded(sessionTable)
      ensures forall id :: id in got ==> got[id].clientSessionId == id && got[id].tuple == sessionTable[id].tuple
    {
      hide DevOk, SysOk, SameTuples;
      got := map[];
      var left := sessionTable.Keys;
      while left != {}
        invariant left <= sessionTable.Keys
        invariant got.Keys == Offloaded(sessionTable) - left
        invariant forall id :: id in got ==> got[id].clientSessionId == id && got[id].tuple == sessionTable[id].tuple
        decreases |left|
      {
        var id :| id in left;
        if sessionTable[id].offloaded {
          FoundOnDevice(View(dev, {}), id, dev.maxSessionId);
          var response := dev.GetSession(id);
          got := got[id := response.value];
        }
        left := left - {id};
      }
    }

    method SessionDeleteSession(dev: OffloadDevice, sessionId: nat, ghost deleted: set<nat>)
      returns (ghost deleted': set<nat>)
      requires dev.Valid() && SysOk(View(dev, deleted), dev.maxSessionId)
      modifies dev`table
      ensures dev.Valid() && SysOk(View(dev, deleted'), dev.maxSessionId)
      ensures View(dev, deleted') == SysStep(old(View(dev, deleted)), Remove(sessionId), dev.maxSessionId)
    {
      SysStepOk(View(dev, deleted), Remove(sessionId), dev.maxSessionId);
      deleted' := deleted + if sessionId in ClientIds(dev.table) then {sessionId} else {};
      var accepted := dev.DeleteSession(sessionId);
    }
  }

  lemma FoundOnDevice(s: Sys, id: nat, max: nat)
    requires SysOk(s, max) && SameTuples(s) && s.deleted == {} && id in Offloaded(s.fw)
    ensures var i := IndexOfClient(s.dev.table, id);
            && i < |s.dev.table| && HasClient(s.dev.table, id)
            && s.dev.table[i].session.clientSessionId == id
            && s.dev.table[i].session.tuple == s.fw[id].tuple
  {
    hide DevOk, DistinctClients;
    ClientIdAt(s.dev.table, id);
    var e := s.dev.table[IndexOfClient(s.dev.table, id)];
    assert e in s.dev.table && Matches(s.fw, e);
  }

  lemma ReportedApart(t: seq<Entry>)
    requires DistinctClients(t)
    ensures NoDup(IdSeq(Reported(t)))
  {
    var at := FilterFrom(t, (e: Entry) => IsClosed(e));
    var ids := IdSeq(Reported(t));
    assert forall i :: 0 <= i < |ids| ==> ids[i] == t[at[i]].session.clientSessionId;
  }

  function Dropped(fw: FwTable, ids: set<nat>): FwTable {
    fw - ids
  }

  // How many of these ids the firewall does not know.
  function Unknown(fw: FwTable, ids: set<nat>): nat {
    |ids - fw.Keys|
  }

  lemma ReportedEnds(fw: FwTable, reported: seq<Session>)
    ensures SessionIds(reported[..|reported|]) == SessionIds(reported)
    ensures Dropped(fw, SessionIds(reported[..0])) == fw && Unknown(fw, SessionIds(reported[..0])) == 0
  {
    assert reported[..|reported|] == reported;
  }

  // The next reported id is new among the reported ones.
  lemma ReportedNow(fw: FwTable, reported: seq<Session>, i: nat)
    requires NoDup(IdSeq(reported)) && i < |reported|
    ensures var id := reported[i].clientSessionId;
            var before, after := SessionIds(reported[..i]), SessionIds(reported[..i + 1]);
            && (id in Dropped(fw, before) <==> id in fw)
            && Dropped(fw, after) == (if id in fw then Dropped(fw, before) - {id} else Dropped(fw, before))
            && Unknown(fw, after) == Unknown(fw, before) + (if id in fw then 0 else 1)
  {
    hide NoDup, IdSeq, Dropped, Unknown, SessionIds;
    NewId(reported, i);
    DropOne(fw, SessionIds(reported[..i]), reported[i].clientSessionId);
    UnknownOne(fw, SessionIds(reported[..i]), reported[i].clientSessionId);
  }

  lemma DropOne(fw: FwTable, ids: set<nat>, id: nat)
    requires id !in ids
    ensures id in Dropped(fw, ids) <==> id in fw
    ensures Dropped(fw, ids + {id}) == if id in fw then Dropped(fw, ids) - {id} else Dropped(fw, ids)
  {
    var a, b := Dropped(fw, ids + {id}), Dropped(fw, ids) - {id};
    forall k ensures k in a <==> k in b {}
  }

  lemma UnknownOne(fw: FwTable, ids: set<nat>, id: nat)
    requires id !in ids
    ensures Unknown(fw, ids + {id}) == Unknown(fw, ids) + (if id in fw then 0 else 1)
  {
    var keys := fw.Keys;
    if id in keys {
      assert ids + {id} - keys == ids - keys;
    } else {
      assert ids + {id} - keys == (ids - keys) + {id};
    }
  }

  lemma NewId(reported: seq<Session>, i: nat)
    requires NoDup(IdSeq(reported)) && i < |reported|
    ensures reported[i].clientSessionId !in SessionIds(reported[..i])
    ensures SessionIds(reported[..i + 1]) == SessionIds(reported[..i]) + {reported[i].clientSessionId}
  {
    assert reported[..i + 1] == reported[..i] + [reported[i]];
    assert reported[i] in reported[..i + 1];
    forall s | s in reported[..i] ensures s in reported[..i + 1] && s.clientSessionId != reported[i].clientSessionId {
      var k :| 0 <= k < i && reported[k] == s;
      assert IdSeq(reported)[k] != IdSeq(reported)[i];
    }
  }
}
