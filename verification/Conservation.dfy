// Two more invariants of the firewall and its device: the parties agree on the 7-tuples,
// and every accepted session is live, reported once, or deleted.
module Conservation {
  import opened Seqs
  import opened Device
  import opened DeviceRuns
  import opened Protocol

  // ----- Same 7-tuples -----

  ghost predicate SameTuples(s: Sys) {
    forall e :: e in s.dev.table ==> Matches(s.fw, e)
  }

  predicate Matches(fw: FwTable, e: Entry) {
    e.session.clientSessionId in fw && fw[e.session.clientSessionId].tuple == e.session.tuple
  }

  lemma OffloadSame(s: Sys, tuples: seq<Tuple7>, max: nat)
    requires max >= 1 && SysOk(s, max) && SameTuples(s)
    ensures SameTuples(SysStep(s, Offload(tuples), max))
  {
    hide DevOk, HasSlot, LocalAdd, AddAll;
    LocalAddIs(s.fw, s.fwLast, tuples);
    var (fw, _, requests) := LocalAdd(s.fw, s.fwLast, tuples);
    AddAllEntries(s.dev, requests, max);
    var t := AddAll(s.dev, requests, max).0.table;
    forall e | e in t ensures Matches(fw, e) {
      var i :| 0 <= i < |t| && t[i] == e;
      if i < |s.dev.table| {
        assert t[..|s.dev.table|][i] == e;
        assert Matches(s.fw, e);
      }
    }
  }

  lemma TrafficSame(s: Sys, slot: nat, a: Action, max: nat)
    requires max >= 1 && SysOk(s, max) && SameTuples(s)
    ensures SameTuples(SysStep(s, Traffic(slot, a), max))
  {
    hide DevOk, Visit;
    var t := s.dev.table;
    var i := IndexOfSlot(t, slot);
    if i < |t| {
      SameKeys(t[i].session, a);
      assert Matches(s.fw, t[i]);
    }
  }

  lemma SameKeys(s: Session, a: Action)
    ensures Visit(s, a).clientSessionId == s.clientSessionId && Visit(s, a).tuple == s.tuple
  {
  }

  lemma CollectSame(s: Sys, max: nat)
    requires max >= 1 && SysOk(s, max) && SameTuples(s)
    ensures SameTuples(SysStep(s, Collect, max))
  {
    hide DevOk, Reported, SessionIds;
    DrainIds(s.dev.table);
    forall e | e in Remaining(s.dev.table) ensures Matches(SysStep(s, Collect, max).fw, e) {
      assert e in s.dev.table && e.session.clientSessionId in ClientIds(Remaining(s.dev.table));
      assert Matches(s.fw, e);
    }
  }

  lemma RemoveSame(s: Sys, id: nat, max: nat)
    requires max >= 1 && SameTuples(s)
    ensures SameTuples(SysStep(s, Remove(id), max))
  {
  }

  // At every moment of every run the device's records carry the 7-tuples the firewall
  // entered under their ids.
  lemma {:induction false} PartiesAgree(events: seq<SysEvent>, max: nat)
    requires max >= 1
    ensures SameTuples(SysRun(events, max))
  {
    hide SysStep, SysOk, SameTuples;
    if events == [] {
      NothingYet(max);
    } else {
      var s := SysRun(Front(events), max);
      TwoParty(Front(events), max);
      PartiesAgree(Front(events), max);
      match Last(events)
      case Offload(tuples) => OffloadSame(s, tuples, max);
      case Traffic(slot, action) => TrafficSame(s, slot, action, max);
      case Collect => CollectSame(s, max);
      case Remove(id) => RemoveSame(s, id, max);
    }
  }

  lemma NothingYet(max: nat)
    requires max >= 1
    ensures SameTuples(SysRun([], max)) && ClientIds(SysRun([], max).dev.table) == {}
  {
  }

  // ----- Every accepted session is accounted for -----

  function IdSeq(ss: seq<Session>): (r: seq<nat>)
    ensures |r| == |ss|
  {
    seq(|ss|, i requires 0 <= i < |ss| => ss[i].clientSessionId)
  }

  // The ids a step has accepted, reported and deleted.
  function AcceptedBy(s: Sys, e: SysEvent, max: nat): multiset<nat>
    requires max >= 1
  {
    match e
    case Offload(tuples) =>
      var requests := LocalAdd(s.fw, s.fwLast, tuples).2;
      multiset(RequestIds(requests) - ErrorIds(AddAll(s.dev, requests, max).1))
    case _ => multiset{}
  }

  function ReportedBy(s: Sys, e: SysEvent): multiset<nat> {
    if e.Collect? then multiset(IdSeq(Reported(s.dev.table))) else multiset{}
  }

  function DeletedBy(s: Sys, e: SysEvent): multiset<nat> {
    if e.Remove? && e.clientSessionId in ClientIds(s.dev.table) then multiset{e.clientSessionId} else multiset{}
  }

  datatype Ledger = Ledger(accepted: multiset<nat>, reported: multiset<nat>, deleted: multiset<nat>)

  function LedgerOf(events: seq<SysEvent>, max: nat): Ledger
    requires max >= 1
  {
    if events == [] then Ledger(multiset{}, multiset{}, multiset{})
    else
      var l, s, e := LedgerOf(Front(events), max), SysRun(Front(events), max), Last(events);
      Ledger(l.accepted + AcceptedBy(s, e, max), l.reported + ReportedBy(s, e), l.deleted + DeletedBy(s, e))
  }

  lemma {:induction false} NoDupMultiset(s: seq<nat>)
    requires NoDup(s)
    ensures multiset(s) == multiset(set x | x in s)
  {
    if s != [] {
      NoDupMultiset(Front(s));
      assert s == Front(s) + [Last(s)];
      assert (set x | x in s) == (set x | x in Front(s)) + {Last(s)};
    }
  }

  // A drain reports no id twice.
  lemma ReportedOnce(t: seq<Entry>)
    requires DistinctClients(t)
    ensures multiset(IdSeq(Reported(t))) == multiset(SessionIds(Reported(t)))
  {
    var at := FilterFrom(t, (e: Entry) => IsClosed(e));
    var ids := IdSeq(Reported(t));
    assert forall i :: 0 <= i < |ids| ==> ids[i] == t[at[i]].session.clientSessionId;
    NoDupMultiset(ids);
    forall id ensures id in ids <==> id in SessionIds(Reported(t)) {
      if id in ids {
        var i :| 0 <= i < |ids| && ids[i] == id;
        assert Reported(t)[i] in Reported(t);
      }
      if id in SessionIds(Reported(t)) {
        var i :| 0 <= i < |ids| && Reported(t)[i].clientSessionId == id;
        assert ids[i] == id;
      }
    }
    assert (set x | x in ids) == SessionIds(Reported(t));
  }

  lemma StepConserves(s: Sys, e: SysEvent, max: nat)
    requires max >= 1 && SysOk(s, max)
    ensures multiset(ClientIds(s.dev.table)) + AcceptedBy(s, e, max)
            == multiset(ClientIds(SysStep(s, e, max).dev.table)) + ReportedBy(s, e) + DeletedBy(s, e)
  {
    hide DevOk, DistinctClients, LocalAdd, AddAll, ClientIds, Remaining, Reported, TrafficStep, DeleteStep;
    var t := s.dev.table;
    match e
    case Offload(tuples) =>
      var (fw, _, requests) := LocalAdd(s.fw, s.fwLast, tuples);
      LocalAddIs(s.fw, s.fwLast, tuples);
      assert ClientIds(t) <= s.fw.Keys;
      AddAllIds(s.dev, requests, max);
    case Traffic(slot, action) =>
      TrafficIds(t, slot, action);
    case Collect =>
      DrainIds(t);
      ReportedOnce(t);
    case Remove(id) =>
      DeleteIds(t, id, s.dev.last, max);
  }

  lemma Balance(l: Ledger, live: multiset<nat>, live1: multiset<nat>, a: multiset<nat>, r: multiset<nat>, d: multiset<nat>)
    requires l.accepted == live + l.reported + l.deleted && live + a == live1 + r + d
    ensures l.accepted + a == live1 + (l.reported + r) + (l.deleted + d)
  {
    assert live + l.reported + l.deleted + a == (live + a) + (l.reported + l.deleted);
  }

  // The accepted ids are those now live in the device, those reported and those deleted.
  lemma {:induction false} Conserved(events: seq<SysEvent>, max: nat)
    requires max >= 1
    ensures var l := LedgerOf(events, max);
            l.accepted == multiset(ClientIds(SysRun(events, max).dev.table)) + l.reported + l.deleted
  {
    hide SysStep, SysOk, AcceptedBy, ReportedBy, DeletedBy, ClientIds;
    if events == [] {
      NothingYet(max);
    } else {
      TwoParty(Front(events), max);
      Conserved(Front(events), max);
      var l, s, e := LedgerOf(Front(events), max), SysRun(Front(events), max), Last(events);
      StepConserves(s, e, max);
      Balance(l, multiset(ClientIds(s.dev.table)), multiset(ClientIds(SysStep(s, e, max).dev.table)),
              AcceptedBy(s, e, max), ReportedBy(s, e), DeletedBy(s, e));
    }
  }
}
