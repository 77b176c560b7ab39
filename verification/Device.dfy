// The offload device of the Python simulator: its session table, the circular slot
// allocator, the traffic process and the drain.
module Device {
  import opened Seqs
  import opened TableSpec

  datatype Tuple7 = Tuple7(inLif: int, outLif: int, sourceIp: nat, sourcePort: nat,
                           destinationIp: nat, destinationPort: nat, protocolId: nat)

  datatype Request = Request(sessionId: nat, tuple: Tuple7)

  datatype State = Established | Closed

  datatype CloseCode = NotClosed | FinAck | Timeout

  datatype Counters = Counters(inPackets: nat, inBytes: nat, outPackets: nat, outBytes: nat)

  datatype Session = Session(clientSessionId: nat, tuple: Tuple7, state: State, counters: Counters,
                             endTime: Option<int>, sessionCloseCode: CloseCode)

  // One item of the dictionary, in insertion order.
  datatype Entry = Entry(slot: nat, session: Session)

  datatype AddStatus = SessionAlreadyExists | SessionTableFull

  datatype ResponseError = ResponseError(sessionId: nat, errorStatus: AddStatus)

  datatype Dev = Dev(table: seq<Entry>, last: nat)

  // What the traffic process may do to a record.
  datatype Action =
    | UpdateCounters(inc: Counters)
    | NoOp
    | TimeoutAt(time: int)
    | ClientFin(time: int)
    | ServerFin(time: int)

  const ZERO: Counters := Counters(0, 0, 0, 0)

  function Plus(a: Counters, b: Counters): Counters {
    Counters(a.inPackets + b.inPackets, a.inBytes + b.inBytes, a.outPackets + b.outPackets, a.outBytes + b.outBytes)
  }

  function NewSession(r: Request): Session {
    Session(r.sessionId, r.tuple, Established, ZERO, None, NotClosed)
  }

  predicate HasSlot(t: seq<Entry>, s: nat) {
    exists i :: 0 <= i < |t| && t[i].slot == s
  }

  // The allocator's loop from its cnt-th turn on: the slot or -1, and the new start.
  function Probe(t: seq<Entry>, last: nat, cnt: nat, max: nat): (int, nat)
    requires cnt < max
    decreases max - cnt
  {
    if cnt + 1 == max then (-1, last)
    else
      var l := if last == max then 1 else last;
      if HasSlot(t, l) then Probe(t, l + 1, cnt + 1, max) else (l, l)
  }

  // The first slot, in table order, whose record has this 7-tuple.
  function FindTuple(t: seq<Entry>, tuple: Tuple7): Option<nat> {
    if t == [] then None
    else if t[0].session.tuple == tuple then Some(t[0].slot)
    else FindTuple(t[1..], tuple)
  }

  // A Python test of an optional id for truth: None and 0 are both false.
  predicate Truthy(id: Option<nat>) {
    id.Some? && id.value != 0
  }

  // One request of an add stream. The allocator runs, and moves its start, even when the
  // 7-tuple is already present.
  function AddOne(d: Dev, r: Request, max: nat): (Dev, seq<ResponseError>)
    requires max >= 1
  {
    var known := Truthy(FindTuple(d.table, r.tuple));
    var (slot, last) := Probe(d.table, d.last, 0, max);
    var errors := (if known then [ResponseError(r.sessionId, SessionAlreadyExists)] else [])
                + (if slot < 0 then [ResponseError(r.sessionId, SessionTableFull)] else []);
    if errors == [] then (Dev(d.table + [Entry(slot, NewSession(r))], last), [])
    else (Dev(d.table, last), errors)
  }

  function AddAll(d: Dev, rs: seq<Request>, max: nat): (Dev, seq<ResponseError>)
    requires max >= 1
  {
    if rs == [] then (d, [])
    else
      var (d1, e1) := AddAll(d, Front(rs), max);
      var (d2, e2) := AddOne(d1, Last(rs), max);
      (d2, e1 + e2)
  }

  // The traffic process on one record: closed records are passed over.
  function Visit(s: Session, a: Action): Session {
    if s.state == Closed then s
    else
      match a
      case UpdateCounters(inc) => s.(counters := Plus(s.counters, inc))
      case NoOp => s
      case TimeoutAt(time) => s.(state := Closed, sessionCloseCode := Timeout, endTime := Some(time))
      case ClientFin(time) => s.(state := Closed, sessionCloseCode := FinAck, endTime := Some(time))
      case ServerFin(time) => s.(state := Closed, sessionCloseCode := FinAck, endTime := Some(time))
  }

  function IndexOfSlot(t: seq<Entry>, slot: nat): (i: nat)
    ensures i <= |t| && (i < |t| ==> t[i].slot == slot)
    ensures forall k :: 0 <= k < i ==> t[k].slot != slot
  {
    if t == [] || t[0].slot == slot then 0 else 1 + IndexOfSlot(t[1..], slot)
  }

  function TrafficStep(t: seq<Entry>, slot: nat, a: Action): seq<Entry> {
    var i := IndexOfSlot(t, slot);
    if i < |t| then t[i := t[i].(session := Visit(t[i].session, a))] else t
  }

  // The first record, in table order, with this client id.
  function IndexOfClient(t: seq<Entry>, id: nat): (i: nat)
    ensures i <= |t| && (i < |t| ==> t[i].session.clientSessionId == id)
    ensures forall k :: 0 <= k < i ==> t[k].session.clientSessionId != id
  {
    if t == [] || t[0].session.clientSessionId == id then 0 else 1 + IndexOfClient(t[1..], id)
  }

  // deleteSession: a record found in slot 0 would be taken for one not found.
  function DeleteStep(t: seq<Entry>, id: nat): seq<Entry> {
    var i := IndexOfClient(t, id);
    if i < |t| && t[i].slot != 0 then Without(t, i) else t
  }

  predicate IsClosed(e: Entry) {
    e.session.state == Closed
  }

  function Remaining(t: seq<Entry>): seq<Entry> {
    Filter(t, (e: Entry) => !IsClosed(e))
  }

  function Reported(t: seq<Entry>): seq<Session> {
    Sessions(Filter(t, (e: Entry) => IsClosed(e)))
  }

  function Sessions(t: seq<Entry>): (r: seq<Session>)
    ensures |r| == |t|
  {
    seq(|t|, i requires 0 <= i < |t| => t[i].session)
  }

  // ----- The slot allocator -----

  // The slot of probe k, counted circularly in 1..max-1 from slot l.
  function ProbeSlot(l: nat, k: nat, max: nat): nat {
    if l + k < max then l + k else l + k + 1 - max
  }

  // The max - 1 probes visit every slot of 1..max-1 exactly once.
  lemma ProbesCover(l: nat, max: nat, s: nat)
    requires 1 <= l < max && 1 <= s < max
    ensures exists k: nat :: k < max - 1 && ProbeSlot(l, k, max) == s
    ensures forall j: nat, k: nat :: j < k < max - 1 ==> ProbeSlot(l, j, max) != ProbeSlot(l, k, max)
    ensures forall k: nat :: k < max - 1 ==> 1 <= ProbeSlot(l, k, max) < max
  {
    var k: nat := if s >= l then s - l else s + max - 1 - l;
    assert ProbeSlot(l, k, max) == s;
  }

  predicate Taken(t: seq<Entry>, l: nat, max: nat, k: nat) {
    HasSlot(t, ProbeSlot(l, k, max))
  }

  // Where the allocator starts probing.
  function StartSlot(last: nat, max: nat): nat {
    if last == max then 1 else last
  }

  // r is the first free slot counted circularly in 1..max-1 from l.
  ghost predicate NextFree(t: seq<Entry>, l: nat, max: nat, r: int) {
    exists k: nat :: FreeAt(t, l, max, 0, k) && r == ProbeSlot(l, k, max)
  }

  // Probe number k found the first free slot, from probe cnt on.
  ghost predicate FreeAt(t: seq<Entry>, l: nat, max: nat, cnt: nat, k: nat) {
    && cnt <= k < max - 1 && !Taken(t, l, max, k)
    && (forall j: nat :: cnt <= j < k ==> Taken(t, l, max, j))
  }

  lemma {:induction false} ProbeIs(t: seq<Entry>, last: nat, cnt: nat, max: nat, l: nat) returns (k: nat)
    requires 1 <= l < max && cnt < max && 1 <= last <= max
    requires StartSlot(last, max) == ProbeSlot(l, cnt, max)
    ensures 1 <= Probe(t, last, cnt, max).1 <= max
    ensures Probe(t, last, cnt, max).0 == -1 ==> StartSlot(Probe(t, last, cnt, max).1, max) == l
    ensures if Probe(t, last, cnt, max).0 == -1
            then forall j: nat :: cnt <= j < max - 1 ==> Taken(t, l, max, j)
            else FreeAt(t, l, max, cnt, k) && Probe(t, last, cnt, max) == (ProbeSlot(l, k, max), ProbeSlot(l, k, max))
    decreases max - cnt
  {
    k := cnt;
    if cnt + 1 < max {
      var s := ProbeSlot(l, cnt, max);
      if HasSlot(t, s) {
        k := ProbeIs(t, s + 1, cnt + 1, max, l);
        assert Taken(t, l, max, cnt);
      }
    }
  }

  // The allocator is complete from every start: -1 exactly when all slots are taken,
  // otherwise the first free slot from the start on. A refusal leaves it starting where it
  // did, and a slot found is the next start.
  lemma AllocatorComplete(t: seq<Entry>, last: nat, max: nat)
    requires max >= 1 && 1 <= last <= max
    ensures var (r, last') := Probe(t, last, 0, max);
            && 1 <= last' <= max
            && (r == -1 <==> forall s: nat :: 1 <= s < max ==> HasSlot(t, s))
            && (r != -1 ==> 1 <= r < max && !HasSlot(t, r) && r == last' && NextFree(t, StartSlot(last, max), max, r))
            && (r == -1 ==> StartSlot(last', max) == StartSlot(last, max) && (max == 1 ==> last' == last))
  {
    if max >= 2 {
      var l := StartSlot(last, max);
      var k := ProbeIs(t, last, 0, max, l);
      ProbesCover(l, max, 1);
      if Probe(t, last, 0, max).0 == -1 {
        forall s: nat | 1 <= s < max ensures HasSlot(t, s) {
          ProbesCover(l, max, s);
          var j: nat :| j < max - 1 && ProbeSlot(l, j, max) == s;
          assert Taken(t, l, max, j);
        }
      } else {
        assert 1 <= ProbeSlot(l, k, max) < max;
      }
    }
  }
}
