// What the C session server does to its table, on the ordered sequence of records.
module SessionSpec {
  import opened Seqs
  import opened Links
  import opened TableSpec

  const HASHTABLE_SIZE: nat := 1000
  const BUFFER_MAX: nat := 64
  const UINT_MAX: nat := 0xFFFF_FFFF

  datatype Status = Ok | NotFound | AlreadyExists | ResourceExhausted

  datatype AddError = AddError(sessionId: nat, errorStatus: Status)

  datatype Response = Response(sessionId: nat, sessionState: SessionState, sessionCloseCode: CloseCode)

  function IdsOf(s: seq<Record>): seq<nat> {
    seq(|s|, i requires 0 <= i < |s| => s[i].sessionId)
  }

  function NewRecord(id: nat): Record {
    Record(id, Closed, NotClosed)
  }

  // opof_add_session_server: the capacity test comes before the duplicate test.
  function AddOne(s: seq<Record>, id: nat): (seq<Record>, Status) {
    if |s| > HASHTABLE_SIZE then (s, ResourceExhausted)
    else if Lookup(s, id).Some? then (s, AlreadyExists)
    else (s + [NewRecord(id)], Ok)
  }

  // A streamed add: the table after it and the errors it reports.
  function AddAll(s: seq<Record>, ids: seq<nat>): (seq<Record>, seq<AddError>) {
    if ids == [] then (s, [])
    else
      var (t, errors) := AddAll(s, Front(ids));
      var (t', status) := AddOne(t, Last(ids));
      (t', if status == Ok then errors else errors + [AddError(Last(ids), status)])
  }

  // The ids of a stream that are new to the table, each once, in order.
  function Fresh(s: seq<Record>, ids: seq<nat>): seq<nat> {
    if ids == [] then []
    else
      var f := Fresh(s, Front(ids));
      if Lookup(s, Last(ids)).Some? || Last(ids) in Front(ids) then f else f + [Last(ids)]
  }

  function Room(s: seq<Record>): nat {
    if |s| > HASHTABLE_SIZE then 0 else HASHTABLE_SIZE + 1 - |s|
  }

  function NewRecords(ids: seq<nat>): seq<Record> {
    seq(|ids|, i requires 0 <= i < |ids| => NewRecord(ids[i]))
  }

  lemma LookupIff(s: seq<Record>, id: nat)
    ensures Lookup(s, id).Some? <==> id in IdsOf(s)
  {
    var i := IndexOf(s, id);
    assert forall k :: 0 <= k < |s| ==> IdsOf(s)[k] == s[k].sessionId;
    if i < |s| {
      assert IdsOf(s)[i] == id;
    }
  }

  lemma {:induction false} FreshMembers(s: seq<Record>, ids: seq<nat>)
    ensures forall id :: id in Fresh(s, ids) ==> id in ids && Lookup(s, id) == None
    ensures forall id :: id in ids && Lookup(s, id) == None ==> id in Fresh(s, ids)
  {
    if ids != [] {
      FreshMembers(s, Front(ids));
      assert ids == Front(ids) + [Last(ids)];
    }
  }

  // The table after a stream: the first Room(s) fresh ids are appended, in order.
  lemma {:induction false} AddAllIsTake(s: seq<Record>, ids: seq<nat>)
    ensures AddAll(s, ids).0 == s + NewRecords(Take(Fresh(s, ids), Room(s)))
  {
    if ids == [] {
      assert s + NewRecords([]) == s;
    } else {
      AddAllIsTake(s, Front(ids));
      FreshMembers(s, Front(ids));
      var id, f := Last(ids), Fresh(s, Front(ids));
      var t := s + NewRecords(Take(f, Room(s)));
      LookupAppend(s, Take(f, Room(s)), id);
      if |t| <= HASHTABLE_SIZE {
        assert Take(f, Room(s)) == f;
        if Lookup(t, id) == None {
          assert NewRecords(f + [id]) == NewRecords(f) + [NewRecord(id)];
        }
      } else {
        assert Take(f + [id], Room(s)) == Take(f, Room(s));
      }
    }
  }

  lemma LookupAppend(s: seq<Record>, f: seq<nat>, id: nat)
    ensures Lookup(s + NewRecords(f), id).Some? <==> Lookup(s, id).Some? || id in f
  {
    var t := s + NewRecords(f);
    LookupIff(s, id);
    LookupIff(t, id);
    assert IdsOf(t) == IdsOf(s) + f;
  }

  // What the request at position j is answered, from what came before it.
  function AnswerAt(s: seq<Record>, ids: seq<nat>, j: nat): Status
    requires j < |ids|
  {
    if |Fresh(s, ids[..j])| >= Room(s) then ResourceExhausted
    else if Lookup(s, ids[j]).Some? || ids[j] in ids[..j] then AlreadyExists
    else Ok
  }

  function ErrorsUpTo(s: seq<Record>, ids: seq<nat>, n: nat): seq<AddError>
    requires n <= |ids|
  {
    if n == 0 then []
    else
      var answer := AnswerAt(s, ids, n - 1);
      ErrorsUpTo(s, ids, n - 1) + (if answer == Ok then [] else [AddError(ids[n - 1], answer)])
  }

  // The errors of a stream are exactly the rejected requests, in order, with their codes.
  lemma {:induction false} AddAllErrors(s: seq<Record>, ids: seq<nat>)
    ensures AddAll(s, ids).1 == ErrorsUpTo(s, ids, |ids|)
  {
    if ids != [] {
      var f := Front(ids);
      AddAllErrors(s, f);
      ErrorsPrefix(s, f, ids, |f|);
      AnswerLast(s, ids);
    }
  }

  lemma AnswerLast(s: seq<Record>, ids: seq<nat>)
    requires ids != []
    ensures AddOne(AddAll(s, Front(ids)).0, Last(ids)).1 == AnswerAt(s, ids, |ids| - 1)
  {
    var f, id := Front(ids), Last(ids);
    AddAllIsTake(s, f);
    LookupAppend(s, Take(Fresh(s, f), Room(s)), id);
    if |Fresh(s, f)| < Room(s) {
      assert Take(Fresh(s, f), Room(s)) == Fresh(s, f);
      FreshMembers(s, f);
    }
  }

  lemma {:induction false} ErrorsPrefix(s: seq<Record>, f: seq<nat>, ids: seq<nat>, n: nat)
    requires n <= |f| <= |ids| && ids[..|f|] == f
    ensures ErrorsUpTo(s, f, n) == ErrorsUpTo(s, ids, n)
  {
    if n > 0 {
      ErrorsPrefix(s, f, ids, n - 1);
      assert f[..n - 1] == ids[..n - 1];
    }
  }

  // The capacity bound and the admission count.
  lemma AddAllBounded(s: seq<Record>, ids: seq<nat>)
    requires |s| <= HASHTABLE_SIZE + 1
    ensures |AddAll(s, ids).0| <= HASHTABLE_SIZE + 1
  {
    AddAllIsTake(s, ids);
  }

  lemma AdmitsExactly(s: seq<Record>, ids: seq<nat>)
    requires NoDup(ids) && forall id :: id in ids ==> Lookup(s, id) == None
    ensures AddAll(s, ids).0 == s + NewRecords(Take(ids, Room(s)))
  {
    AddAllIsTake(s, ids);
    AllFresh(s, ids);
  }

  lemma {:induction false} AllFresh(s: seq<Record>, ids: seq<nat>)
    requires NoDup(ids) && forall id :: id in ids ==> Lookup(s, id) == None
    ensures Fresh(s, ids) == ids
  {
    if ids != [] {
      AllFresh(s, Front(ids));
      assert ids == Front(ids) + [Last(ids)];
    }
  }

  // Sending the same stream again changes nothing and is refused on every request.
  lemma {:induction false} ResendRefused(s: seq<Record>, ids: seq<nat>, again: seq<nat>)
    requires forall id :: id in again ==> id in ids
    ensures var t := AddAll(s, ids).0;
            AddAll(t, again).0 == t && |AddAll(t, again).1| == |again|
  {
    if again != [] {
      var t := AddAll(s, ids).0;
      assert again == Front(again) + [Last(again)];
      ResendRefused(s, ids, Front(again));
      AddAllIsTake(s, ids);
      FreshMembers(s, ids);
      var f := Take(Fresh(s, ids), Room(s));
      LookupAppend(s, f, Last(again));
      if |t| <= HASHTABLE_SIZE {
        assert f == Fresh(s, ids);
      }
    }
  }

  // One stream or several in a row: the same table and the same errors.
  lemma {:induction false} AddAllAppend(s: seq<Record>, a: seq<nat>, b: seq<nat>)
    ensures var (t, e) := AddAll(s, a); var (u, e') := AddAll(t, b);
            AddAll(s, a + b) == (u, e + e')
  {
    if b == [] {
      assert a + b == a;
      assert AddAll(s, a).1 + [] == AddAll(s, a).1;
    } else {
      AddAllAppend(s, a, Front(b));
      assert Front(a + b) == a + Front(b) && Last(a + b) == Last(b);
      var (t, e) := AddAll(s, a);
      var (u, e') := AddAll(t, Front(b));
      var (u', status) := AddOne(u, Last(b));
      if status != Ok {
        assert e + e' + [AddError(Last(b), status)] == e + (e' + [AddError(Last(b), status)]);
      }
    }
  }
}
