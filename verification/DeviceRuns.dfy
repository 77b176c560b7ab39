// What every run of the device keeps, and the life of each record.
module DeviceRuns {
  import opened Seqs
  import opened TableSpec
  import opened Device

  // Slots are distinct and in 1..max-1, no two live records share a 7-tuple, and a record
  // is closed exactly when it has a close code, and exactly when it has an end time.
  ghost predicate DevOk(d: Dev, max: nat) {
    && 1 <= d.last <= max
    && (forall i :: 0 <= i < |d.table| ==> 1 <= d.table[i].slot < max && SessionOk(d.table[i].session))
    && (forall i, j :: 0 <= i < j < |d.table| ==> d.table[i].slot != d.table[j].slot)
    && (forall i, j :: 0 <= i < j < |d.table| ==> d.table[i].session.tuple != d.table[j].session.tuple)
  }

  predicate SessionOk(s: Session) {
    && (s.state == Closed <==> s.sessionCloseCode != NotClosed)
    && (s.state == Closed <==> s.endTime.Some?)
  }

  predicate HasTuple(t: seq<Entry>, tuple: Tuple7) {
    exists i :: 0 <= i < |t| && t[i].session.tuple == tuple
  }

  lemma {:induction false} FindTupleIff(t: seq<Entry>, tuple: Tuple7)
    ensures FindTuple(t, tuple).Some? <==> HasTuple(t, tuple)
    ensures FindTuple(t, tuple).Some? ==> HasSlot(t, FindTuple(t, tuple).value)
  {
    if t != [] {
      FindTupleIff(t[1..], tuple);
      if HasTuple(t[1..], tuple) {
        var i :| 0 <= i < |t[1..]| && t[1..][i].session.tuple == tuple;
        assert t[i + 1].session.tuple == tuple;
      }
      if FindTuple(t[1..], tuple).Some? {
        var i :| 0 <= i < |t[1..]| && t[1..][i].slot == FindTuple(t[1..], tuple).value;
        assert t[i + 1].slot == FindTuple(t[1..], tuple).value;
      }
    }
  }

  predicate Full(t: seq<Entry>, max: nat) {
    forall s: nat :: 1 <= s < max ==> HasSlot(t, s)
  }

  // A request inserts one record or appends an error for it, never both: it inserts
  // exactly when its 7-tuple is new and a slot is free.
  lemma AddOneOutcome(d: Dev, r: Request, max: nat)
    requires max >= 1 && DevOk(d, max)
    ensures var (d', errors) := AddOne(d, r, max);
            && (errors == [] <==> !HasTuple(d.table, r.tuple) && !Full(d.table, max))
            && (errors == [] ==> exists slot: nat :: !HasSlot(d.table, slot) && d'.table == d.table + [Entry(slot, NewSession(r))]
                                                     && slot == d'.last)
            && (if Full(d.table, max) then StartSlot(d'.last, max) == StartSlot(d.last, max)
                else NextFree(d.table, StartSlot(d.last, max), max, d'.last))
            && (errors != [] ==> d'.table == d.table)
            && (forall e :: e in errors ==> e.sessionId == r.sessionId)
            && (ResponseError(r.sessionId, SessionAlreadyExists) in errors <==> HasTuple(d.table, r.tuple))
            && (ResponseError(r.sessionId, SessionTableFull) in errors <==> Full(d.table, max))
  {
    hide HasSlot, HasTuple, Probe, FindTuple, NextFree, StartSlot;
    TupleTruthy(d, r.tuple, max);
    AllocatorComplete(d.table, d.last, max);
    var slot := Probe(d.table, d.last, 0, max).0;
    if AddOne(d, r, max).1 == [] {
      assert !HasSlot(d.table, slot);
    }
  }

  // Slots are never 0, so the truth test on a found slot is a test for presence.
  lemma TupleTruthy(d: Dev, tuple: Tuple7, max: nat)
    requires DevOk(d, max)
    ensures Truthy(FindTuple(d.table, tuple)) <==> HasTuple(d.table, tuple)
  {
    FindTupleIff(d.table, tuple);
  }

  lemma AddOneOk(d: Dev, r: Request, max: nat)
    requires max >= 1 && DevOk(d, max)
    ensures DevOk(AddOne(d, r, max).0, max)
  {
    hide Probe, FindTuple;
    TupleTruthy(d, r.tuple, max);
    AllocatorComplete(d.table, d.last, max);
  }

  lemma {:induction false} AddAllOk(d: Dev, rs: seq<Request>, max: nat)
    requires max >= 1 && DevOk(d, max)
    ensures DevOk(AddAll(d, rs, max).0, max)
  {
    if rs != [] {
      AddAllOk(d, Front(rs), max);
      AddOneOk(AddAll(d, Front(rs), max).0, Last(rs), max);
    }
  }

  lemma VisitOk(s: Session, a: Action)
    requires SessionOk(s)
    ensures SessionOk(Visit(s, a)) && Visit(s, a).tuple == s.tuple
            && Visit(s, a).clientSessionId == s.clientSessionId
    ensures s.state == Closed ==> Visit(s, a) == s
    ensures AtLeast(Visit(s, a).counters, s.counters)
  {
  }

  predicate AtLeast(a: Counters, b: Counters) {
    a.inPackets >= b.inPackets && a.inBytes >= b.inBytes && a.outPackets >= b.outPackets && a.outBytes >= b.outBytes
  }

  // Where the elements a filter keeps come from, in order.
  lemma {:induction false} FilterFrom<T>(s: seq<T>, p: T -> bool) returns (at: seq<nat>)
    ensures |at| == |Filter(s, p)|
    ensures forall i :: 0 <= i < |at| ==> at[i] < |s| && Filter(s, p)[i] == s[at[i]] && p(s[at[i]])
    ensures forall i, j :: 0 <= i < j < |at| ==> at[i] < at[j]
  {
    at := [];
    if s != [] {
      at := FilterFrom(Front(s), p);
      if p(Last(s)) {
        at := at + [|s| - 1];
      }
    }
  }

  lemma DrainOk(d: Dev, max: nat)
    requires DevOk(d, max)
    ensures DevOk(Dev(Remaining(d.table), d.last), max)
  {
    hide DevOk;
    var at := FilterFrom(d.table, (e: Entry) => !IsClosed(e));
    PickedOk(d, Remaining(d.table), at, max);
  }

  datatype Event =
    | AddEvent(requests: seq<Request>)
    | TrafficEvent(slot: nat, action: Action)
    | DrainEvent
    | DeleteEvent(clientSessionId: nat)

  function Step(d: Dev, e: Event, max: nat): Dev
    requires max >= 1
  {
    match e
    case AddEvent(requests) => AddAll(d, requests, max).0
    case TrafficEvent(slot, action) => d.(table := TrafficStep(d.table, slot, action))
    case DrainEvent => d.(table := Remaining(d.table))
    case DeleteEvent(id) => d.(table := DeleteStep(d.table, id))
  }

  function Run(events: seq<Event>, max: nat): Dev
    requires max >= 1
  {
    if events == [] then Dev([], 1) else Step(Run(Front(events), max), Last(events), max)
  }

  lemma TrafficOk(d: Dev, slot: nat, action: Action, max: nat)
    requires DevOk(d, max)
    ensures DevOk(d.(table := TrafficStep(d.table, slot, action)), max)
  {
    hide Visit, SessionOk;
    var i := IndexOfSlot(d.table, slot);
    if i < |d.table| {
      VisitOk(d.table[i].session, action);
    }
  }

  lemma DeleteOk(d: Dev, id: nat, max: nat)
    requires DevOk(d, max)
    ensures DevOk(d.(table := DeleteStep(d.table, id)), max)
  {
    hide DevOk;
    var i := IndexOfClient(d.table, id);
    if i < |d.table| {
      var at := seq(|d.table| - 1, k requires 0 <= k => if k < i then k else k + 1);
      PickedOk(d, Without(d.table, i), at, max);
    }
  }

  // Records picked from the table, in order, keep the invariant.
  lemma PickedOk(d: Dev, t: seq<Entry>, at: seq<nat>, max: nat)
    requires DevOk(d, max) && |t| == |at|
    requires forall i :: 0 <= i < |at| ==> at[i] < |d.table| && t[i] == d.table[at[i]]
    requires forall i, j :: 0 <= i < j < |at| ==> at[i] < at[j]
    ensures DevOk(d.(table := t), max)
  {
    hide SessionOk;
  }

  lemma StepOk(d: Dev, e: Event, max: nat)
    requires max >= 1 && DevOk(d, max)
    ensures DevOk(Step(d, e, max), max)
  {
    hide DevOk, AddAll, TrafficStep, Remaining, DeleteStep;
    match e
    case AddEvent(requests) => AddAllOk(d, requests, max);
    case TrafficEvent(slot, action) => TrafficOk(d, slot, action, max);
    case DrainEvent => DrainOk(d, max);
    case DeleteEvent(id) => DeleteOk(d, id, max);
  }

  // Every run of the device.
  lemma {:induction false} RunOk(events: seq<Event>, max: nat)
    requires max >= 1
    ensures DevOk(Run(events, max), max)
    ensures |Run(events, max).table| <= max - 1
  {
    if events != [] {
      RunOk(Front(events), max);
      StepOk(Run(Front(events), max), Last(events), max);
    }
    AtMost(Run(events, max), max);
  }

  lemma AtMost(d: Dev, max: nat)
    requires max >= 1 && DevOk(d, max)
    ensures |d.table| <= max - 1
  {
    var slots := seq(|d.table|, i requires 0 <= i < |d.table| => d.table[i].slot);
    SmallSeq(slots, max);
  }

  lemma SmallSeq(s: seq<nat>, max: nat)
    requires max >= 1 && NoDup(s)
    requires forall x :: x in s ==> 1 <= x < max
    ensures |s| <= max - 1
  {
    NoDupSetSize(s);
    RangeIs(max);
    SubsetSize((set x | x in s), Range(max));
  }

  function Range(max: nat): set<nat> {
    if max <= 1 then {} else Range(max - 1) + {max - 1}
  }

  lemma {:induction false} RangeIs(max: nat)
    requires max >= 1
    ensures |Range(max)| == max - 1
    ensures forall s: nat :: s in Range(max) <==> 1 <= s < max
  {
    if max > 1 {
      RangeIs(max - 1);
    }
  }

  lemma {:induction false} SubsetSize<T>(a: set<T>, b: set<T>)
    requires a <= b
    ensures |a| <= |b|
  {
    if a != {} {
      var x :| x in a;
      SubsetSize(a - {x}, b - {x});
    }
  }

  // ----- The life of a record -----

  function Replay(s: Session, log: seq<Action>): Session {
    if log == [] then s else Visit(Replay(s, Front(log)), Last(log))
  }

  predicate Closing(a: Action) {
    a.TimeoutAt? || a.ClientFin? || a.ServerFin?
  }

  // Position of the first closing action, or the length.
  function FirstClose(log: seq<Action>): (c: nat)
    ensures c <= |log| && (c < |log| ==> Closing(log[c]))
    ensures forall k :: 0 <= k < c ==> !Closing(log[k])
  {
    if log == [] || Closing(log[0]) then 0 else 1 + FirstClose(log[1..])
  }

  function Sum(log: seq<Action>): Counters {
    if log == [] then ZERO
    else
      match Last(log)
      case UpdateCounters(inc) => Plus(Sum(Front(log)), inc)
      case _ => Sum(Front(log))
  }

  // One counter over the increments of a log.
  function Total(log: seq<Action>, of: Counters -> nat): nat {
    if log == [] then 0
    else Total(Front(log), of) + if Last(log).UpdateCounters? then of(Last(log).inc) else 0
  }

  // Each of the four counters is summed by itself, from 0.
  lemma {:induction false} SumIs(log: seq<Action>)
    ensures Sum(log).inPackets == Total(log, (c: Counters) => c.inPackets)
    ensures Sum(log).inBytes == Total(log, (c: Counters) => c.inBytes)
    ensures Sum(log).outPackets == Total(log, (c: Counters) => c.outPackets)
    ensures Sum(log).outBytes == Total(log, (c: Counters) => c.outBytes)
  {
    if log != [] {
      SumIs(Front(log));
    }
  }

  // What a record that started fresh has become: its counters are the sum of the
  // increments before the first closing action, which also sets code and time for good.
  lemma {:induction false} ReplayIs(r: Request, log: seq<Action>)
    ensures var s := Replay(NewSession(r), log); var c := FirstClose(log);
            && s.clientSessionId == r.sessionId && s.tuple == r.tuple
            && s.counters == Sum(log[..c])
            && (s.state == Closed <==> c < |log|)
            && (c < |log| ==> match log[c]
                  case TimeoutAt(time) => s.sessionCloseCode == Timeout && s.endTime == Some(time)
                  case ClientFin(time) => s.sessionCloseCode == FinAck && s.endTime == Some(time)
                  case ServerFin(time) => s.sessionCloseCode == FinAck && s.endTime == Some(time)
                  case _ => false)
            && (c == |log| ==> s.sessionCloseCode == NotClosed && s.endTime == None)
  {
    if log != [] {
      var f := Front(log);
      ReplayIs(r, f);
      FirstCloseFront(log);
      var c := FirstClose(log);
      if FirstClose(f) < |f| {
        assert f[..c] == log[..c];
      } else {
        assert f[..|f|] == f && log[..|f|] == f && log[..|log|] == log;
      }
    } else {
      assert log[..0] == [];
    }
  }

  lemma FirstCloseFront(log: seq<Action>)
    requires log != []
    ensures FirstClose(Front(log)) < |log| - 1 ==> FirstClose(log) == FirstClose(Front(log))
    ensures FirstClose(Front(log)) == |log| - 1 ==>
              FirstClose(log) == if Closing(Last(log)) then |log| - 1 else |log|
  {
    var f := Front(log);
    var c, d := FirstClose(f), FirstClose(log);
    assert forall k :: 0 <= k < |f| ==> f[k] == log[k];
  }

  // Closed never reverts, and a closed record is frozen; counters never decrease.
  lemma {:induction false} ReplayOnward(s: Session, log: seq<Action>)
    requires SessionOk(s)
    ensures s.state == Closed ==> Replay(s, log) == s
    ensures AtLeast(Replay(s, log).counters, s.counters) && SessionOk(Replay(s, log))
  {
    if log != [] {
      ReplayOnward(s, Front(log));
      VisitOk(Replay(s, Front(log)), Last(log));
    }
  }

  // The actions the record now in this slot has met since it was inserted.
  function LogOf(events: seq<Event>, slot: nat, max: nat): seq<Action>
    requires max >= 1
  {
    if events == [] then []
    else
      var before := Run(Front(events), max);
      if !HasSlot(before.table, slot) then []
      else
        var log := LogOf(Front(events), slot, max);
        match Last(events)
        case TrafficEvent(s, a) => if s == slot then log + [a] else log
        case _ => log
  }

  // A record of the new table is one of the old table's, or fresh in a slot that was free.
  lemma {:induction false} AddAllEntries(d: Dev, rs: seq<Request>, max: nat)
    requires max >= 1 && DevOk(d, max)
    ensures var t := AddAll(d, rs, max).0.table;
            && |d.table| <= |t| && t[..|d.table|] == d.table
            && forall i :: |d.table| <= i < |t| ==>
                 exists r :: r in rs && t[i].session == NewSession(r) && !HasSlot(d.table, t[i].slot)
  {
    if rs != [] {
      var d1 := AddAll(d, Front(rs), max).0;
      hide DevOk, HasSlot, HasTuple;
      AddAllOk(d, Front(rs), max);
      AddAllEntries(d, Front(rs), max);
      AddOneOutcome(d1, Last(rs), max);
      var t1, t := d1.table, AddAll(d, rs, max).0.table;
      forall i | |d.table| <= i < |t|
        ensures exists r :: r in rs && t[i].session == NewSession(r) && !HasSlot(d.table, t[i].slot)
      {
        if i < |t1| {
          assert t[i] == t1[i];
          var r :| r in Front(rs) && t1[i].session == NewSession(r) && !HasSlot(d.table, t1[i].slot);
          assert r in rs;
        } else {
          assert Last(rs) in rs;
          assert forall k :: 0 <= k < |d.table| ==> d.table[k] == t1[..|d.table|][k] == t1[k];
        }
      }
    }
  }

  ghost predicate Replays(events: seq<Event>, e: Entry, max: nat)
    requires max >= 1
  {
    e.session == Replay(NewSession(Request(e.session.clientSessionId, e.session.tuple)), LogOf(events, e.slot, max))
  }

  // The new entry e' comes from the old entry e, untouched by this event.
  lemma Untouched(events: seq<Event>, e: Entry, max: nat)
    requires max >= 1 && events != [] && Replays(Front(events), e, max)
    requires HasSlot(Run(Front(events), max).table, e.slot)
    requires Last(events).TrafficEvent? ==> Last(events).slot != e.slot
    ensures Replays(events, e, max)
  {
    hide Run, Replay;
  }

  lemma FreshReplays(events: seq<Event>, e: Entry, r: Request, max: nat)
    requires max >= 1 && events != [] && e.session == NewSession(r)
    requires !HasSlot(Run(Front(events), max).table, e.slot)
    ensures Replays(events, e, max)
  {
    hide Run;
  }

  lemma Touched(events: seq<Event>, e: Entry, a: Action, max: nat)
    requires max >= 1 && events != [] && Replays(Front(events), e, max)
    requires HasSlot(Run(Front(events), max).table, e.slot) && Last(events) == TrafficEvent(e.slot, a)
    requires SessionOk(e.session)
    ensures Replays(events, e.(session := Visit(e.session, a)), max)
  {
    hide Run, Visit;
    VisitOk(e.session, a);
    var log := LogOf(Front(events), e.slot, max);
    assert Front(log + [a]) == log;
  }

  // At every moment of every run, each record is what its own log makes of a fresh one.
  lemma {:induction false} RecordsReplay(events: seq<Event>, max: nat, i: nat)
    requires max >= 1 && i < |Run(events, max).table|
    ensures Replays(events, Run(events, max).table[i], max)
  {
    hide Replays, LogOf, HasSlot, DevOk;
    if events != [] {
      var f := Front(events);
      var d, e := Run(f, max), Run(events, max).table[i];
      RunOk(f, max);
      var from := Origin(d, Last(events), max, i);
      if from < |d.table| {
        RecordsReplay(f, max, from);
        OwnSlot(d, from, max);
        if Last(events).TrafficEvent? && Last(events).slot == d.table[from].slot {
          Touched(events, d.table[from], Last(events).action, max);
        } else {
          Untouched(events, e, max);
        }
      } else {
        var r :| e.session == NewSession(r) && !HasSlot(d.table, e.slot);
        FreshReplays(events, e, r, max);
      }
    }
  }

  lemma OwnSlot(d: Dev, i: nat, max: nat)
    requires DevOk(d, max) && i < |d.table|
    ensures HasSlot(d.table, d.table[i].slot) && SessionOk(d.table[i].session)
  {
  }

  // Record e after a step was record number from before it, or is new when from is past the end.
  ghost predicate CameFrom(d: Dev, e: Entry, v: Event, from: nat) {
    if from >= |d.table| then exists r :: e.session == NewSession(r) && !HasSlot(d.table, e.slot)
    else if v.TrafficEvent? && v.slot == d.table[from].slot
    then e == d.table[from].(session := Visit(d.table[from].session, v.action))
    else e == d.table[from]
  }

  lemma AddOrigin(d: Dev, rs: seq<Request>, max: nat, i: nat)
    requires max >= 1 && DevOk(d, max) && i < |AddAll(d, rs, max).0.table|
    ensures CameFrom(d, AddAll(d, rs, max).0.table[i], AddEvent(rs), i)
  {
    hide HasSlot, DevOk, AddAll;
    AddAllEntries(d, rs, max);
    var t := AddAll(d, rs, max).0.table;
    if i < |d.table| {
      assert t[i] == t[..|d.table|][i];
    }
  }

  lemma TrafficOrigin(d: Dev, slot: nat, a: Action, max: nat, i: nat)
    requires DevOk(d, max) && i < |d.table|
    ensures CameFrom(d, TrafficStep(d.table, slot, a)[i], TrafficEvent(slot, a), i)
  {
    hide Visit, SessionOk;
    var k := IndexOfSlot(d.table, slot);
    if d.table[i].slot == slot {
      assert k == i;
    }
  }

  lemma DrainOrigin(d: Dev, i: nat) returns (from: nat)
    requires i < |Remaining(d.table)|
    ensures CameFrom(d, Remaining(d.table)[i], DrainEvent, from)
  {
    var at := FilterFrom(d.table, (e: Entry) => !IsClosed(e));
    from := at[i];
  }

  lemma DeleteOrigin(d: Dev, id: nat, i: nat) returns (from: nat)
    requires i < |DeleteStep(d.table, id)|
    ensures CameFrom(d, DeleteStep(d.table, id)[i], DeleteEvent(id), from)
  {
    var k := IndexOfClient(d.table, id);
    from := if |DeleteStep(d.table, id)| == |d.table| || i < k then i else i + 1;
  }

  lemma Origin(d: Dev, e: Event, max: nat, i: nat) returns (from: nat)
    requires max >= 1 && DevOk(d, max) && i < |Step(d, e, max).table|
    ensures CameFrom(d, Step(d, e, max).table[i], e, from)
  {
    hide CameFrom, DevOk, AddAll, Remaining, DeleteStep;
    from := i;
    match e
    case AddEvent(requests) => AddOrigin(d, requests, max, i);
    case TrafficEvent(s, a) => TrafficOrigin(d, s, a, max, i);
    case DrainEvent => from := DrainOrigin(d, i);
    case DeleteEvent(id) => from := DeleteOrigin(d, id, i);
  }

  // The counters a drain reports are all the increments the record met before it closed.
  lemma DrainReportsSums(events: seq<Event>, max: nat, i: nat)
    requires max >= 1 && i < |Run(events, max).table| && IsClosed(Run(events, max).table[i])
    ensures var e := Run(events, max).table[i];
            var log := LogOf(events, e.slot, max);
            FirstClose(log) < |log| && e.session.counters == Sum(log[..FirstClose(log)])
  {
    var e := Run(events, max).table[i];
    RecordsReplay(events, max, i);
    assert Replays(events, e, max);
    ReplayIs(Request(e.session.clientSessionId, e.session.tuple), LogOf(events, e.slot, max));
  }
}
