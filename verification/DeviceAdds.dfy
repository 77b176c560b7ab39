// What a stream of add requests does to the device's table and what it is answered, from
// the table and the requests alone.
module DeviceAdds {
  import opened Seqs
  import opened TableSpec
  import opened Device
  import opened DeviceRuns

  predicate TupleAmong(rs: seq<Request>, tuple: Tuple7) {
    exists i :: 0 <= i < |rs| && rs[i].tuple == tuple
  }

  // The requests whose 7-tuple neither the table nor an earlier request has.
  function FreshRequests(t: seq<Entry>, rs: seq<Request>): seq<Request> {
    if rs == [] then []
    else
      var f := FreshRequests(t, Front(rs));
      if HasTuple(t, Last(rs).tuple) || TupleAmong(Front(rs), Last(rs).tuple) then f else f + [Last(rs)]
  }

  function Room(t: seq<Entry>, max: nat): nat {
    if |t| + 1 < max then max - 1 - |t| else 0
  }

  // The requests a stream gets into the table: the first fresh ones that fit.
  function Admitted(t: seq<Entry>, rs: seq<Request>, max: nat): seq<Request> {
    Take(FreshRequests(t, rs), Room(t, max))
  }

  // What request number j of a stream is answered: first that its 7-tuple is known, then
  // that no slot was free.
  function AnswerTo(t: seq<Entry>, rs: seq<Request>, j: nat, max: nat): seq<ResponseError>
    requires j < |rs|
  {
    (if HasTuple(t, rs[j].tuple) || TupleAmong(Admitted(t, rs[..j], max), rs[j].tuple)
     then [ResponseError(rs[j].sessionId, SessionAlreadyExists)] else [])
    + (if |FreshRequests(t, rs[..j])| >= Room(t, max) then [ResponseError(rs[j].sessionId, SessionTableFull)] else [])
  }

  function AnswersUpTo(t: seq<Entry>, rs: seq<Request>, n: nat, max: nat): seq<ResponseError>
    requires n <= |rs|
  {
    if n == 0 then [] else AnswersUpTo(t, rs, n - 1, max) + AnswerTo(t, rs, n - 1, max)
  }

  // ----- Room -----

  lemma {:induction false} SameSizeSubset<T>(a: set<T>, b: set<T>)
    requires a <= b && |a| == |b|
    ensures a == b
  {
    if x :| x in b && x !in a {
      SubsetSize(a, b - {x});
    }
  }

  function SlotSeq(t: seq<Entry>): (slots: seq<nat>)
    ensures |slots| == |t|
  {
    seq(|t|, i requires 0 <= i < |t| => t[i].slot)
  }

  lemma SlotsOf(t: seq<Entry>, s: nat)
    ensures s in SlotSeq(t) <==> HasSlot(t, s)
  {
    if HasSlot(t, s) {
      var i :| 0 <= i < |t| && t[i].slot == s;
      assert SlotSeq(t)[i] == s;
    }
  }

  // All slots are taken exactly when there are max - 1 records.
  lemma FullIff(d: Dev, max: nat)
    requires max >= 1 && DevOk(d, max)
    ensures Full(d.table, max) <==> |d.table| == max - 1
    ensures |d.table| <= max - 1
  {
    var slots := SlotSeq(d.table);
    SlotsDistinct(d, max);
    hide DevOk, HasSlot, SlotSeq;
    var taken := set s | s in slots;
    AtMost(d, max);
    RangeIs(max);
    NoDupSetSize(slots);
    forall s: nat ensures s in taken <==> HasSlot(d.table, s) {
      SlotsOf(d.table, s);
    }
    if Full(d.table, max) {
      assert Range(max) <= taken;
      SubsetSize(Range(max), taken);
    }
    if |d.table| == max - 1 {
      SameSizeSubset(taken, Range(max));
    }
  }

  lemma SlotsDistinct(d: Dev, max: nat)
    requires DevOk(d, max)
    ensures NoDup(SlotSeq(d.table)) && forall s :: s in SlotSeq(d.table) ==> 1 <= s < max
  {
  }

  // ----- One request -----

  lemma AddOneErrors(d: Dev, r: Request, max: nat)
    requires max >= 1 && DevOk(d, max)
    ensures AddOne(d, r, max).1 ==
            (if HasTuple(d.table, r.tuple) then [ResponseError(r.sessionId, SessionAlreadyExists)] else [])
            + (if |d.table| == max - 1 then [ResponseError(r.sessionId, SessionTableFull)] else [])
  {
    hide HasSlot, HasTuple, Probe, FindTuple, NextFree, StartSlot, DevOk;
    TupleTruthy(d, r.tuple, max);
    DevLast(d, max);
    AllocatorComplete(d.table, d.last, max);
    FullIff(d, max);
  }

  lemma DevLast(d: Dev, max: nat)
    requires DevOk(d, max)
    ensures 1 <= d.last <= max
  {
  }

  // ----- A stream -----

  lemma {:induction false} FreshTuples(t: seq<Entry>, rs: seq<Request>, tuple: Tuple7)
    requires !HasTuple(t, tuple)
    ensures TupleAmong(FreshRequests(t, rs), tuple) <==> TupleAmong(rs, tuple)
  {
    if rs != [] {
      var f, r := FreshRequests(t, Front(rs)), Last(rs);
      FreshTuples(t, Front(rs), tuple);
      AmongSnoc(Front(rs), r, tuple);
      AmongSnoc(f, r, tuple);
      assert Front(rs) + [r] == rs;
    }
  }

  lemma AmongSnoc(rs: seq<Request>, r: Request, tuple: Tuple7)
    ensures TupleAmong(rs + [r], tuple) <==> TupleAmong(rs, tuple) || r.tuple == tuple
  {
    var all := rs + [r];
    assert all[|rs|] == r;
    if i :| 0 <= i < |rs| && rs[i].tuple == tuple {
      assert all[i].tuple == tuple;
    }
  }

  // The table t1 is t with fresh sessions for these requests, in order.
  ghost predicate Extends(t: seq<Entry>, t1: seq<Entry>, rs: seq<Request>) {
    && |t1| == |t| + |rs| && t1[..|t|] == t
    && forall i :: 0 <= i < |rs| ==>
         t1[|t| + i].session
         == Session(rs[i].sessionId, rs[i].tuple, Established, Counters(0, 0, 0, 0), None, NotClosed)
  }

  lemma ExtendsTuples(t: seq<Entry>, t1: seq<Entry>, rs: seq<Request>, tuple: Tuple7)
    requires Extends(t, t1, rs)
    ensures HasTuple(t1, tuple) <==> HasTuple(t, tuple) || TupleAmong(rs, tuple)
  {
    if i :| 0 <= i < |t| && t[i].session.tuple == tuple {
      assert t1[..|t|][i] == t1[i];
    }
    if i :| 0 <= i < |rs| && rs[i].tuple == tuple {
      assert t1[|t| + i].session.tuple == tuple;
    }
    if i :| 0 <= i < |t1| && t1[i].session.tuple == tuple {
      if i < |t| {
        assert t1[..|t|][i] == t1[i];
      } else {
        assert t1[|t| + (i - |t|)].session.tuple == rs[i - |t|].tuple;
      }
    }
  }

  lemma ExtendsOne(t: seq<Entry>, t1: seq<Entry>, rs: seq<Request>, slot: nat, r: Request)
    requires Extends(t, t1, rs)
    ensures Extends(t, t1 + [Entry(slot, NewSession(r))], rs + [r])
  {
    var t2 := t1 + [Entry(slot, NewSession(r))];
    assert t2[..|t|] == t1[..|t|];
  }

  // A stream appends exactly the admitted requests, in order, and answers each request.
  lemma {:induction false} AddAllAdmits(d: Dev, rs: seq<Request>, max: nat)
    requires max >= 1 && DevOk(d, max)
    ensures Extends(d.table, AddAll(d, rs, max).0.table, Admitted(d.table, rs, max))
    ensures AddAll(d, rs, max).1 == AnswersUpTo(d.table, rs, |rs|, max)
  {
    hide DevOk, AddOne, HasTuple, TupleAmong;
    if rs == [] {
      NothingAdmitted(d.table, max);
    } else {
      var t, f, r := d.table, Front(rs), Last(rs);
      var (d1, e1) := AddAll(d, f, max);
      AddAllAdmits(d, f, max);
      AddAllOk(d, f, max);
      FullIff(d, max);
      AnswersPrefix(t, f, rs, |f|, max);
      AddOneErrors(d1, r, max);
      AddOneGrows(d1, r, max);
      ExtendsTuples(t, d1.table, Admitted(t, f, max), r.tuple);
      AdmittedNext(d, rs, max);
      assert rs[..|f|] == f;
      if AddOne(d1, r, max).1 == [] {
        ExtendsOne(t, d1.table, Admitted(t, f, max), AddOne(d1, r, max).0.last, r);
      }
    }
  }

  lemma NothingAdmitted(t: seq<Entry>, max: nat)
    ensures Extends(t, t, Admitted(t, [], max))
  {
    assert t[..|t|] == t;
  }

  lemma AddOneGrows(d: Dev, r: Request, max: nat)
    requires max >= 1 && DevOk(d, max)
    ensures var (d', errors) := AddOne(d, r, max);
            d'.table == if errors == [] then d.table + [Entry(d'.last, NewSession(r))] else d.table
  {
    hide DevOk, HasSlot, HasTuple, NextFree, StartSlot, AddOne;
    AddOneOutcome(d, r, max);
  }

  // Whether the last request is admitted.
  lemma AdmittedNext(d: Dev, rs: seq<Request>, max: nat)
    requires max >= 1 && rs != [] && |d.table| <= max - 1
    ensures var t, f, r := d.table, Front(rs), Last(rs);
            var a := Admitted(t, f, max);
            && (|a| == Room(t, max) <==> |FreshRequests(t, f)| >= Room(t, max))
            && Admitted(t, rs, max) == if HasTuple(t, r.tuple) || TupleAmong(a, r.tuple) || |a| == Room(t, max)
                                       then a else a + [r]
  {
    hide HasTuple, TupleAmong;
    var t, f, r := d.table, Front(rs), Last(rs);
    if !HasTuple(t, r.tuple) {
      FreshTuples(t, f, r.tuple);
    }
  }

  lemma {:induction false} AnswersPrefix(t: seq<Entry>, f: seq<Request>, rs: seq<Request>, n: nat, max: nat)
    requires n <= |f| <= |rs| && rs[..|f|] == f
    ensures AnswersUpTo(t, f, n, max) == AnswersUpTo(t, rs, n, max)
  {
    hide AnswerTo;
    if n > 0 {
      AnswersPrefix(t, f, rs, n - 1, max);
      SameAnswer(t, f, rs, n - 1, max);
    }
  }

  lemma SameAnswer(t: seq<Entry>, f: seq<Request>, rs: seq<Request>, j: nat, max: nat)
    requires j < |f| <= |rs| && rs[..|f|] == f
    ensures AnswerTo(t, f, j, max) == AnswerTo(t, rs, j, max)
  {
    hide HasTuple, TupleAmong, Admitted, FreshRequests;
    assert f[..j] == rs[..j] && f[j] == rs[j];
  }
}
