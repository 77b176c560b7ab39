// The firewall and the offload device as one transition system. A step is one RPC of the
// firewall with its local bookkeeping, or the traffic process visiting one record.
module Protocol {
  import opened Seqs
  import opened Device
  import opened DeviceRuns

  const START_SESSION_ID: nat := 1000
  const MAX_SESSION_ID: nat := 999999

  // A record of the firewall's own table.
  datatype FwSession = FwSession(tuple: Tuple7, offloaded: bool)

  type FwTable = map<nat, FwSession>

  // deleted: the ids whose explicit delete the device has accepted.
  datatype Sys = Sys(fw: FwTable, fwLast: nat, dev: Dev, deleted: set<nat>)

  datatype SysEvent =
    | Offload(tuples: seq<Tuple7>)
    | Traffic(slot: nat, action: Action)
    | Collect
    | Remove(clientSessionId: nat)

  // The first id from this one on that is not a key.
  function FirstFree(keys: set<nat>, id: nat): (r: nat)
    ensures r >= id && r !in keys
    ensures forall k :: id <= k < r ==> k in keys
    decreases Above(keys, id)
  {
    if id in keys then
      assert id in Above(keys, id);
      FirstFree(keys, id + 1)
    else id
  }

  function Above(keys: set<nat>, id: nat): set<nat> {
    set k | k in keys && k >= id
  }

  function NextId(keys: set<nat>, last: nat): nat {
    FirstFree(keys, if last == MAX_SESSION_ID then START_SESSION_ID else last)
  }

  // The start wraps only when it equals the maximum on entry, so the ids pass the
  // maximum exactly when the start already has, or every id up to it is in use.
  lemma IdsPassMaximum(keys: set<nat>, last: nat)
    ensures var from := if last == MAX_SESSION_ID then START_SESSION_ID else last;
            NextId(keys, last) > MAX_SESSION_ID <==>
              last > MAX_SESSION_ID || forall id: nat :: from <= id <= MAX_SESSION_ID ==> id in keys
  {
  }

  // The firewall's half of a batch before the RPC: every session gets an id and is
  // entered as offloaded.
  function LocalAdd(fw: FwTable, last: nat, tuples: seq<Tuple7>): (FwTable, nat, seq<Request>) {
    if tuples == [] then (fw, last, [])
    else
      var (fw1, last1, requests) := LocalAdd(fw, last, Front(tuples));
      var id := NextId(fw1.Keys, last1);
      (fw1[id := FwSession(Last(tuples), true)], id, requests + [Request(id, Last(tuples))])
  }

  function ErrorIds(errors: seq<ResponseError>): set<nat> {
    set e | e in errors :: e.sessionId
  }

  function RequestIds(requests: seq<Request>): set<nat> {
    set r | r in requests :: r.sessionId
  }

  function SessionIds(ss: seq<Session>): set<nat> {
    set s | s in ss :: s.clientSessionId
  }

  function ClientIds(t: seq<Entry>): set<nat> {
    set e | e in t :: e.session.clientSessionId
  }

  function Refused(fw: FwTable, ids: set<nat>): FwTable {
    map k | k in fw :: if k in ids then fw[k].(offloaded := false) else fw[k]
  }

  function Offloaded(fw: FwTable): set<nat> {
    set k | k in fw && fw[k].offloaded
  }

  function SysStep(s: Sys, e: SysEvent, max: nat): Sys
    requires max >= 1
  {
    match e
    case Offload(tuples) =>
      var (fw, last, requests) := LocalAdd(s.fw, s.fwLast, tuples);
      var (dev, errors) := AddAll(s.dev, requests, max);
      Sys(Refused(fw, ErrorIds(errors)), last, dev, s.deleted)
    case Traffic(slot, action) =>
      s.(dev := s.dev.(table := TrafficStep(s.dev.table, slot, action)))
    case Collect =>
      s.(fw := s.fw - SessionIds(Reported(s.dev.table)), dev := s.dev.(table := Remaining(s.dev.table)))
    case Remove(id) =>
      s.(dev := s.dev.(table := DeleteStep(s.dev.table, id)),
         deleted := s.deleted + if id in ClientIds(s.dev.table) then {id} else {})
  }

  function SysRun(events: seq<SysEvent>, max: nat): Sys
    requires max >= 1
  {
    if events == [] then Sys(map[], START_SESSION_ID, Dev([], 1), {})
    else SysStep(SysRun(Front(events), max), Last(events), max)
  }

  ghost predicate DistinctClients(t: seq<Entry>) {
    forall i, j :: 0 <= i < j < |t| ==> t[i].session.clientSessionId != t[j].session.clientSessionId
  }

  // The two-party invariant: the ids the firewall holds as offloaded are the ids in the
  // device, each there once, and the ids deleted by hand.
  ghost predicate SysOk(s: Sys, max: nat) {
    && DevOk(s.dev, max)
    && DistinctClients(s.dev.table)
    && ClientIds(s.dev.table) !! s.deleted
    && Offloaded(s.fw) == ClientIds(s.dev.table) + s.deleted
  }

  // ----- Batches -----

  ghost predicate DistinctRequests(rs: seq<Request>) {
    forall i, j :: 0 <= i < j < |rs| ==> rs[i].sessionId != rs[j].sessionId
  }

  // fw1 is fw with one offloaded session for each tuple, under fresh and distinct ids.
  ghost predicate Entered(fw: FwTable, fw1: FwTable, tuples: seq<Tuple7>, requests: seq<Request>) {
    && |requests| == |tuples|
    && (forall i :: 0 <= i < |tuples| ==> requests[i].tuple == tuples[i])
    && DistinctRequests(requests)
    && RequestIds(requests) !! fw.Keys
    && fw1.Keys == fw.Keys + RequestIds(requests)
    && (forall k :: k in fw ==> fw1[k] == fw[k])
    && (forall r :: r in requests ==> r.sessionId in fw1 && fw1[r.sessionId] == FwSession(r.tuple, true))
  }

  lemma EnterOne(fw: FwTable, fw1: FwTable, tuples: seq<Tuple7>, requests: seq<Request>, id: nat, tuple: Tuple7)
    requires Entered(fw, fw1, tuples, requests) && id !in fw1
    ensures Entered(fw, fw1[id := FwSession(tuple, true)], tuples + [tuple], requests + [Request(id, tuple)])
  {
    RequestIdsSnoc(requests, Request(id, tuple));
    forall i | 0 <= i < |requests| ensures requests[i].sessionId != id {
      assert requests[i] in requests;
    }
  }

  lemma {:induction false} LocalAddIs(fw: FwTable, last: nat, tuples: seq<Tuple7>)
    ensures var (fw1, _, requests) := LocalAdd(fw, last, tuples); Entered(fw, fw1, tuples, requests)
  {
    if tuples != [] {
      LocalAddIs(fw, last, Front(tuples));
      var (fw0, last0, requests) := LocalAdd(fw, last, Front(tuples));
      EnterOne(fw, fw0, Front(tuples), requests, NextId(fw0.Keys, last0), Last(tuples));
      assert Front(tuples) + [Last(tuples)] == tuples;
    }
  }

  lemma RequestIdsSnoc(requests: seq<Request>, r: Request)
    ensures RequestIds(requests + [r]) == RequestIds(requests) + {r.sessionId}
  {
    assert r in requests + [r];
    forall x | x in requests ensures x in requests + [r] {}
  }

  lemma ErrorIdsAppend(a: seq<ResponseError>, b: seq<ResponseError>)
    ensures ErrorIds(a + b) == ErrorIds(a) + ErrorIds(b)
  {
    forall x | x in a || x in b ensures x in a + b {}
  }

  lemma ClientIdsSnoc(t: seq<Entry>, e: Entry)
    ensures ClientIds(t + [e]) == ClientIds(t) + {e.session.clientSessionId}
  {
    forall x | x in t || x == e ensures x in t + [e] {}
  }

  lemma ClientIdAt(t: seq<Entry>, id: nat)
    ensures id in ClientIds(t) <==> exists i :: 0 <= i < |t| && t[i].session.clientSessionId == id
  {
    if exists i :: 0 <= i < |t| && t[i].session.clientSessionId == id {
      var i :| 0 <= i < |t| && t[i].session.clientSessionId == id;
      assert t[i] in t;
    }
  }

  // Of a batch with fresh, distinct ids the device takes exactly those it reports no error for.
  lemma {:induction false} AddAllIds(d: Dev, rs: seq<Request>, max: nat)
    requires max >= 1 && DevOk(d, max) && DistinctClients(d.table)
    requires DistinctRequests(rs) && RequestIds(rs) !! ClientIds(d.table)
    ensures var (d1, errors) := AddAll(d, rs, max);
            && DistinctClients(d1.table)
            && ErrorIds(errors) <= RequestIds(rs)
            && ClientIds(d1.table) == ClientIds(d.table) + (RequestIds(rs) - ErrorIds(errors))
  {
    hide DevOk, HasSlot, HasTuple, AddOne;
    if rs != [] {
      var f, r := Front(rs), Last(rs);
      assert rs == f + [r];
      RequestIdsSnoc(f, r);
      AddAllIds(d, f, max);
      AddAllOk(d, f, max);
      var (d1, e1) := AddAll(d, f, max);
      var (d2, e2) := AddOne(d1, r, max);
      AddOneOutcome(d1, r, max);
      ErrorIdsAppend(e1, e2);
      forall x | x in f ensures x.sessionId != r.sessionId {
        var i :| 0 <= i < |f| && f[i] == x;
        assert rs[i] == x && rs[|f|] == r;
      }
      AddOneIds(d1, r, max);
    }
  }

  lemma AddOneIds(d: Dev, r: Request, max: nat)
    requires max >= 1 && DevOk(d, max) && DistinctClients(d.table)
    requires r.sessionId !in ClientIds(d.table)
    ensures var (d1, errors) := AddOne(d, r, max);
            && DistinctClients(d1.table)
            && ErrorIds(errors) == (if errors == [] then {} else {r.sessionId})
            && ClientIds(d1.table) == ClientIds(d.table) + (if errors == [] then {r.sessionId} else {})
  {
    hide DevOk, HasSlot, HasTuple, AddOne;
    AddOneOutcome(d, r, max);
    var (d1, errors) := AddOne(d, r, max);
    if errors == [] {
      var slot: nat :| !HasSlot(d.table, slot) && d1.table == d.table + [Entry(slot, NewSession(r))];
      ClientIdsSnoc(d.table, Entry(slot, NewSession(r)));
      ClientIdAt(d.table, r.sessionId);
    } else {
      assert errors[0] in errors;
    }
  }

  lemma OffloadOk(s: Sys, tuples: seq<Tuple7>, max: nat)
    requires max >= 1 && SysOk(s, max)
    ensures SysOk(SysStep(s, Offload(tuples), max), max)
    ensures var (fw, _, requests) := LocalAdd(s.fw, s.fwLast, tuples);
            ErrorIds(AddAll(s.dev, requests, max).1) <= fw.Keys
  {
    hide DevOk, DistinctClients, LocalAdd, AddAll;
    var (fw, last, requests) := LocalAdd(s.fw, s.fwLast, tuples);
    LocalAddIs(s.fw, s.fwLast, tuples);
    AddAllOk(s.dev, requests, max);
    assert ClientIds(s.dev.table) <= s.fw.Keys;
    AddAllIds(s.dev, requests, max);
    var (dev, errors) := AddAll(s.dev, requests, max);
    EnteredOffloaded(s.fw, fw, tuples, requests);
    assert Offloaded(Refused(fw, ErrorIds(errors))) == Offloaded(fw) - ErrorIds(errors);
  }

  // fw1 is fw, untouched, with a session for each tuple under new ids, of which exactly
  // those live on the device are offloaded.
  ghost predicate Batched(fw: FwTable, fw1: FwTable, tuples: seq<Tuple7>, ids: seq<nat>, live: set<nat>) {
    && |ids| == |tuples| && NoDup(ids)
    && (forall id :: id in fw1 <==> id in fw || id in ids)
    && (forall id :: id in fw ==> id !in ids && fw1[id] == fw[id])
    && (forall i :: 0 <= i < |ids| ==> fw1[ids[i]] == FwSession(tuples[i], ids[i] in live))
  }

  function IdsOf(requests: seq<Request>): (ids: seq<nat>)
    ensures |ids| == |requests|
  {
    seq(|requests|, i requires 0 <= i < |requests| => requests[i].sessionId)
  }

  // A refused session stays in the firewall's table, and every other one is as before.
  lemma BatchIs(s: Sys, tuples: seq<Tuple7>, max: nat)
    requires max >= 1 && SysOk(s, max)
    ensures var s1 := SysStep(s, Offload(tuples), max);
            exists ids :: Batched(s.fw, s1.fw, tuples, ids, ClientIds(s1.dev.table))
  {
    hide DevOk, DistinctClients, LocalAdd, AddAll;
    var (fw, last, requests) := LocalAdd(s.fw, s.fwLast, tuples);
    LocalAddIs(s.fw, s.fwLast, tuples);
    assert ClientIds(s.dev.table) <= s.fw.Keys;
    AddAllIds(s.dev, requests, max);
    var (dev, errors) := AddAll(s.dev, requests, max);
    RefusedIs(s.fw, fw, tuples, requests, ErrorIds(errors), ClientIds(dev.table));
    assert SysStep(s, Offload(tuples), max).fw == Refused(fw, ErrorIds(errors));
  }

  lemma RefusedIs(fw: FwTable, fw1: FwTable, tuples: seq<Tuple7>, requests: seq<Request>, refused: set<nat>, live: set<nat>)
    requires Entered(fw, fw1, tuples, requests) && refused <= RequestIds(requests)
    requires forall id :: id in RequestIds(requests) ==> (id in live <==> id !in refused)
    ensures Batched(fw, Refused(fw1, refused), tuples, IdsOf(requests), live)
  {
    var ids := IdsOf(requests);
    forall id ensures id in RequestIds(requests) <==> id in ids {
      if id in RequestIds(requests) {
        var i :| 0 <= i < |requests| && requests[i].sessionId == id;
        assert ids[i] == id;
      }
    }
    forall i | 0 <= i < |ids| ensures ids[i] in fw1 && fw1[ids[i]] == FwSession(tuples[i], true) {
      assert requests[i] in requests;
    }
  }

  lemma EnteredOffloaded(fw: FwTable, fw1: FwTable, tuples: seq<Tuple7>, requests: seq<Request>)
    requires Entered(fw, fw1, tuples, requests)
    ensures Offloaded(fw1) == Offloaded(fw) + RequestIds(requests)
  {
    forall k | k in fw1 ensures k in Offloaded(fw1) <==> k in Offloaded(fw) || k in RequestIds(requests) {
      if k !in fw {
        var r :| r in requests && r.sessionId == k;
        assert fw1[r.sessionId].offloaded;
      }
    }
  }

  // ----- How far ids can go -----

  // The keys are the first n ids.
  ghost predicate FirstIds(keys: set<nat>, n: nat) {
    forall id :: id in keys <==> START_SESSION_ID <= id < START_SESSION_ID + n
  }

  // The first batch from an empty table: consecutive ids, whatever its length.
  lemma {:induction false} FirstBatchIds(tuples: seq<Tuple7>)
    ensures var (fw, last, requests) := LocalAdd(map[], START_SESSION_ID, tuples);
            && FirstIds(fw.Keys, |tuples|)
            && last == START_SESSION_ID + (if tuples == [] then 0 else |tuples| - 1)
            && |requests| == |tuples|
            && forall i :: 0 <= i < |tuples| ==> requests[i] == Request(START_SESSION_ID + i, tuples[i])
  {
    if tuples != [] {
      var f := Front(tuples);
      FirstBatchIds(f);
      var (fw0, last0, requests0) := LocalAdd(map[], START_SESSION_ID, f);
      NextInRange(fw0.Keys, |f|, last0);
    }
  }

  lemma NextInRange(keys: set<nat>, n: nat, last: nat)
    requires FirstIds(keys, n)
    requires last == START_SESSION_ID + (if n == 0 then 0 else n - 1)
    ensures NextId(keys, last) == START_SESSION_ID + n
  {
    var id := NextId(keys, last);
    var from := if last == MAX_SESSION_ID then START_SESSION_ID else last;
    assert id !in keys && id >= from && START_SESSION_ID + n !in keys;
  }

  // A run that starts with one batch gives out an id above the maximum exactly when the
  // batch has more than 999000 sessions, whatever the device and the 7-tuples.
  lemma FirstBatchPassesIff(tuples: seq<Tuple7>, max: nat)
    requires max >= 1
    ensures (exists id :: id in SysRun([Offload(tuples)], max).fw && id > MAX_SESSION_ID) <==> |tuples| > 999000
  {
    hide AddAll, LocalAdd;
    var e := [Offload(tuples)];
    assert Front(e) == [] && Last(e) == Offload(tuples);
    FirstBatchIds(tuples);
    OneBatch(tuples, max);
    var fw := SysRun(e, max).fw;
    assert FirstIds(fw.Keys, |tuples|);
    if |tuples| > 999000 {
      assert 1000000 in fw.Keys;
    }
  }

  lemma OneBatch(tuples: seq<Tuple7>, max: nat)
    requires max >= 1
    ensures SysRun([Offload(tuples)], max).fw.Keys == LocalAdd(map[], START_SESSION_ID, tuples).0.Keys
  {
    hide AddAll, LocalAdd;
    var e := [Offload(tuples)];
    assert Front(e) == [] && Last(e) == Offload(tuples);
    assert SysRun(Front(e), max) == Sys(map[], START_SESSION_ID, Dev([], 1), {});
  }

  // Such a run: 999001 sessions, of which the last gets id 1000000.
  lemma IdAboveMaximum(tuple: Tuple7, max: nat)
    requires max >= 1
    ensures 1000000 in SysRun([Offload(seq(999001, _ => tuple))], max).fw && 1000000 > MAX_SESSION_ID
  {
    hide LocalAdd, SysRun;
    var tuples := seq(999001, _ => tuple);
    FirstBatchIds(tuples);
    OneBatch(tuples, max);
  }

  // ----- Drains and deletes -----

  lemma DrainIds(t: seq<Entry>)
    requires DistinctClients(t)
    ensures DistinctClients(Remaining(t))
    ensures SessionIds(Reported(t)) <= ClientIds(t)
    ensures ClientIds(Remaining(t)) == ClientIds(t) - SessionIds(Reported(t))
  {
    var at := FilterFrom(t, (e: Entry) => !IsClosed(e));
    ReportedIds(t);
    forall e, g | e in t && g in t && e.session.clientSessionId == g.session.clientSessionId ensures e == g {
    }
  }

  lemma ReportedIds(t: seq<Entry>)
    ensures forall id :: id in SessionIds(Reported(t)) <==> exists e :: e in t && IsClosed(e) && e.session.clientSessionId == id
  {
    var closed := Filter(t, (e: Entry) => IsClosed(e));
    forall id ensures id in SessionIds(Reported(t)) <==> exists e :: e in t && IsClosed(e) && e.session.clientSessionId == id {
      if id in SessionIds(Reported(t)) {
        var s :| s in Reported(t) && s.clientSessionId == id;
        var i :| 0 <= i < |closed| && Reported(t)[i] == s;
        assert closed[i] in closed;
      }
      if e :| e in t && IsClosed(e) && e.session.clientSessionId == id {
        var i :| 0 <= i < |closed| && closed[i] == e;
        assert Reported(t)[i] in Reported(t);
      }
    }
  }

  lemma DeleteIds(t: seq<Entry>, id: nat, last: nat, max: nat)
    requires DistinctClients(t) && DevOk(Dev(t, last), max)
    ensures DistinctClients(DeleteStep(t, id))
    ensures ClientIds(DeleteStep(t, id)) == ClientIds(t) - {id}
  {
    hide ClientIds, Without;
    ClientIdAt(t, id);
    var i := IndexOfClient(t, id);
    if i < |t| {
      WithoutIds(t, i);
    }
  }

  lemma WithoutIds(t: seq<Entry>, i: nat)
    requires DistinctClients(t) && i < |t|
    ensures DistinctClients(Without(t, i))
    ensures ClientIds(Without(t, i)) == ClientIds(t) - {t[i].session.clientSessionId}
  {
    hide ClientIds;
    var u := Without(t, i);
    assert forall k :: 0 <= k < |u| ==> u[k] == t[if k < i then k else k + 1];
    forall id ensures id in ClientIds(u) <==> id in ClientIds(t) && id != t[i].session.clientSessionId {
      ClientIdAt(t, id);
      ClientIdAt(u, id);
      if k :| 0 <= k < |t| && t[k].session.clientSessionId == id && k != i {
        assert u[if k < i then k else k - 1] == t[k];
      }
    }
  }

  lemma TrafficIds(t: seq<Entry>, slot: nat, a: Action)
    requires DistinctClients(t)
    ensures DistinctClients(TrafficStep(t, slot, a))
    ensures ClientIds(TrafficStep(t, slot, a)) == ClientIds(t)
  {
    hide Visit;
    var t1, i := TrafficStep(t, slot, a), IndexOfSlot(t, slot);
    if i < |t| {
      SameClient(t[i].session, a);
      forall id ensures id in ClientIds(t1) <==> id in ClientIds(t) {
        ClientIdAt(t, id);
        ClientIdAt(t1, id);
        assert forall k :: 0 <= k < |t| ==> t1[k].session.clientSessionId == t[k].session.clientSessionId;
      }
    }
  }

  lemma SameClient(s: Session, a: Action)
    ensures Visit(s, a).clientSessionId == s.clientSessionId
  {
  }

  // ----- Every run -----

  lemma SysStepOk(s: Sys, e: SysEvent, max: nat)
    requires max >= 1 && SysOk(s, max)
    ensures SysOk(SysStep(s, e, max), max)
  {
    hide DevOk, DistinctClients, LocalAdd, AddAll, ClientIds, Remaining, Reported, TrafficStep, DeleteStep;
    match e
    case Offload(tuples) => OffloadOk(s, tuples, max);
    case Traffic(slot, action) =>
      TrafficOk(s.dev, slot, action, max);
      TrafficIds(s.dev.table, slot, action);
    case Collect =>
      DrainOk(s.dev, max);
      DrainIds(s.dev.table);
    case Remove(id) =>
      DeleteOk(s.dev, id, max);
      DeleteIds(s.dev.table, id, s.dev.last, max);
  }

  lemma {:induction false} TwoParty(events: seq<SysEvent>, max: nat)
    requires max >= 1
    ensures SysOk(SysRun(events, max), max)
  {
    if events != [] {
      TwoParty(Front(events), max);
      SysStepOk(SysRun(Front(events), max), Last(events), max);
    }
  }

  // The device holds exactly what the firewall holds as offloaded, exactly as long as no
  // explicit delete has been accepted.
  lemma OffloadedIsDevice(events: seq<SysEvent>, max: nat)
    requires max >= 1
    ensures var s := SysRun(events, max); Offloaded(s.fw) == ClientIds(s.dev.table) <==> s.deleted == {}
  {
    TwoParty(events, max);
  }

  lemma {:induction false} NoDeletes(events: seq<SysEvent>, max: nat)
    requires max >= 1 && forall e :: e in events ==> !e.Remove?
    ensures SysRun(events, max).deleted == {}
  {
    if events != [] {
      forall e | e in Front(events) ensures e in events {}
      NoDeletes(Front(events), max);
      assert Last(events) in events;
    }
  }

  // A drain at any moment of any run, deletes or not, reports only ids the firewall knows.
  lemma DrainsAreKnown(events: seq<SysEvent>, max: nat)
    requires max >= 1
    ensures var s := SysRun(events, max); SessionIds(Reported(s.dev.table)) <= Offloaded(s.fw) <= s.fw.Keys
  {
    TwoParty(events, max);
    DrainIds(SysRun(events, max).dev.table);
  }

  // A fetch succeeds for exactly the offloaded ids that were not deleted.
  lemma FetchSucceeds(events: seq<SysEvent>, max: nat, id: nat)
    requires max >= 1
    ensures var s := SysRun(events, max);
            IndexOfClient(s.dev.table, id) < |s.dev.table| <==> id in Offloaded(s.fw) && id !in s.deleted
  {
    TwoParty(events, max);
    ClientIdAt(SysRun(events, max).dev.table, id);
  }
}
