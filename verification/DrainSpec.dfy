// opof_get_closed_sessions_server on values: one destructive page of closed records.
module DrainSpec {
  import opened Seqs
  import opened Links
  import opened TableSpec
  import opened SessionSpec
  import opened Chunking

  function ClosedOf(s: seq<Record>): seq<Record> {
    Filter(s, (r: Record) => r.sessionState == Closed)
  }

  function OpenOf(s: seq<Record>): seq<Record> {
    Filter(s, (r: Record) => r.sessionState != Closed)
  }

  // The records one call reports and the records it leaves. It stops when the count of
  // reported records equals size, so a size below 1 never stops it.
  function Drained(s: seq<Record>, size: int): (seq<Record>, seq<Record>) {
    if s == [] then ([], [])
    else if s[0].sessionState != Closed then
      var (r, k) := Drained(s[1..], size);
      (r, [s[0]] + k)
    else if size == 1 then ([s[0]], s[1..])
    else
      var (r, k) := Drained(s[1..], size - 1);
      ([s[0]] + r, k)
  }

  lemma Uncons(s: seq<Record>)
    requires s != []
    ensures ClosedOf(s) == (if s[0].sessionState == Closed then [s[0]] else []) + ClosedOf(s[1..])
    ensures OpenOf(s) == (if s[0].sessionState != Closed then [s[0]] else []) + OpenOf(s[1..])
  {
    assert s == [s[0]] + s[1..];
    FilterCons(s[0], s[1..], (r: Record) => r.sessionState == Closed);
    FilterCons(s[0], s[1..], (r: Record) => r.sessionState != Closed);
  }

  ghost predicate DrainOk(s: seq<Record>, size: int, reported: seq<Record>, kept: seq<Record>) {
    && reported == (if size >= 1 then Take(ClosedOf(s), size) else ClosedOf(s))
    && |reported| <= |ClosedOf(s)| && ClosedOf(kept) == ClosedOf(s)[|reported|..]
    && OpenOf(kept) == OpenOf(s)
  }

  // A call reports the first `size` closed records in order (all of them when size is
  // below 1) and keeps every other record in order.
  lemma {:induction false} DrainedIs(s: seq<Record>, size: int)
    ensures DrainOk(s, size, Drained(s, size).0, Drained(s, size).1)
  {
    if s != [] {
      if s[0].sessionState != Closed {
        DrainedIs(s[1..], size);
        DrainOpen(s, size, Drained(s[1..], size).0, Drained(s[1..], size).1);
      } else if size == 1 {
        DrainLast(s);
      } else {
        DrainedIs(s[1..], size - 1);
        DrainMore(s, size, Drained(s[1..], size - 1).0, Drained(s[1..], size - 1).1);
      }
    }
  }

  lemma DrainOpen(s: seq<Record>, size: int, r: seq<Record>, k: seq<Record>)
    requires s != [] && s[0].sessionState != Closed && DrainOk(s[1..], size, r, k)
    ensures DrainOk(s, size, r, [s[0]] + k)
  {
    hide ClosedOf, OpenOf, Take;
    Uncons(s);
    Uncons([s[0]] + k);
    assert ([s[0]] + k)[1..] == k;
    assert [] + ClosedOf(s[1..]) == ClosedOf(s[1..]) && [] + ClosedOf(k) == ClosedOf(k);
  }

  lemma DrainLast(s: seq<Record>)
    requires s != [] && s[0].sessionState == Closed
    ensures DrainOk(s, 1, [s[0]], s[1..])
  {
    hide ClosedOf, OpenOf, Take;
    Uncons(s);
    assert [] + OpenOf(s[1..]) == OpenOf(s[1..]);
    TakeCons(s[0], ClosedOf(s[1..]), 1);
    assert ([s[0]] + ClosedOf(s[1..]))[1..] == ClosedOf(s[1..]);
  }

  lemma DrainMore(s: seq<Record>, size: int, r: seq<Record>, k: seq<Record>)
    requires s != [] && s[0].sessionState == Closed && size != 1 && DrainOk(s[1..], size - 1, r, k)
    ensures DrainOk(s, size, [s[0]] + r, k)
  {
    hide ClosedOf, OpenOf, Take;
    Uncons(s);
    assert [] + OpenOf(s[1..]) == OpenOf(s[1..]);
    TakeCons(s[0], ClosedOf(s[1..]), size);
    DropCons(s[0], ClosedOf(s[1..]), |r|);
  }

  lemma DropCons<T>(x: T, s: seq<T>, n: nat)
    requires n <= |s|
    ensures ([x] + s)[1 + n..] == s[n..]
  {
  }

  lemma TakeCons<T>(x: T, s: seq<T>, n: int)
    ensures n > 1 ==> Take([x] + s, n) == [x] + Take(s, n - 1)
    ensures n == 1 ==> Take([x] + s, n) == [x]
  {
  }

  // Nothing closed left means only the open records are.
  lemma {:induction false} NoneClosed(s: seq<Record>)
    requires ClosedOf(s) == []
    ensures OpenOf(s) == s
  {
    if s != [] {
      Uncons(s);
      NoneClosed(s[1..]);
      assert s == [s[0]] + s[1..];
    }
  }

  // A reply goes into a 64-entry array. It fits exactly for a page size of 1 to 64, or
  // with at most 64 closed records.
  predicate DrainFits(s: seq<Record>, size: int) {
    1 <= size <= BUFFER_MAX || |ClosedOf(s)| <= BUFFER_MAX
  }

  lemma DrainFitsIff(s: seq<Record>, size: int)
    ensures DrainFits(s, size) <==> |Drained(s, size).0| <= BUFFER_MAX
  {
    hide ClosedOf, OpenOf, Drained;
    DrainedIs(s, size);
  }

  // A record is reported or kept, never both.
  lemma {:induction false} DrainSplits(s: seq<Record>, size: int, r: Record)
    requires r in s
    ensures r in Drained(s, size).0 || r in Drained(s, size).1
  {
    if s[0] != r {
      assert r in s[1..];
      DrainSplits(s[1..], if s[0].sessionState != Closed then size else size - 1, r);
    }
  }

  lemma TailApart(s: seq<Record>)
    requires DistinctIds(s) && s != []
    ensures DistinctIds(s[1..])
    ensures forall x :: x in s[1..] ==> x in s && x.sessionId != s[0].sessionId
  {
  }

  lemma {:induction false} DrainApart(s: seq<Record>, size: int)
    requires DistinctIds(s)
    ensures var (r, k) := Drained(s, size);
            && (forall x :: x in r ==> x in s) && (forall x :: x in k ==> x in s)
            && forall x, y :: x in r && y in k ==> x.sessionId != y.sessionId
  {
    if s != [] {
      TailApart(s);
      DrainApart(s[1..], if s[0].sessionState != Closed then size else size - 1);
    }
  }

  // What a reply reports and leaves, without counting: closed records, and the others; and
  // nothing closed is left unless the reply is full.
  lemma {:induction false} DrainStates(s: seq<Record>, size: int)
    ensures var (r, k) := Drained(s, size);
            && Interleaved(s, r, k)
            && (forall x :: x in r ==> x.sessionState == Closed)
            && (size >= 1 ==> |r| <= size)
            && (size < 1 || |r| < size ==> forall x :: x in k ==> x.sessionState != Closed)
  {
    if s != [] && !(s[0].sessionState == Closed && size == 1) {
      DrainStates(s[1..], if s[0].sessionState != Closed then size else size - 1);
    }
    if s != [] && s[0].sessionState == Closed && size == 1 {
      AllKept(s[1..]);
    }
  }

  lemma {:induction false} AllKept(s: seq<Record>)
    ensures Interleaved(s, [], s)
  {
    if s != [] {
      AllKept(s[1..]);
    }
  }

  // The replies of a client that drains; a page size of 0 asks for everything at once.
  function Pages(ids: seq<nat>, size: nat): seq<seq<nat>> {
    if size >= 1 then Chunks(ids, size) else if ids == [] then [] else [ids]
  }

  // One call of a client that drains: a page cut off the front of the closed records.
  lemma DrainTurn(s: seq<Record>, size: nat)
    ensures var (r, k) := Drained(s, size);
            && OpenOf(k) == OpenOf(s) && (r == [] <==> ClosedOf(s) == [])
            && (r != [] ==> |ClosedOf(k)| < |ClosedOf(s)|)
            && (r != [] ==> Pages(IdsOf(ClosedOf(s)), size) == [IdsOf(r)] + Pages(IdsOf(ClosedOf(k)), size))
            && (r == [] ==> ClosedOf(k) == [])
  {
    hide ClosedOf, OpenOf, Drained, Chunks;
    DrainedIs(s, size);
    var c := ClosedOf(s);
    if c != [] && size == 0 {
      assert c[|c|..] == [];
      assert Pages(IdsOf([]), 0) == [] && [IdsOf(c)] + [] == [IdsOf(c)];
    }
    if c != [] && size >= 1 {
      var m := if size < |c| then size else |c|;
      ChunksCons(IdsOf(c), size);
      assert IdsOf(c)[..m] == IdsOf(c[..m]) && IdsOf(c)[m..] == IdsOf(c[m..]);
      assert c[..|c|] == c;
    }
  }

  lemma NothingToDrain()
    ensures ClosedOf([]) == [] && OpenOf([]) == []
  {
  }

  // New records are all closed.
  lemma {:induction false} NewAllClosed(ids: seq<nat>)
    ensures ClosedOf(NewRecords(ids)) == NewRecords(ids) && OpenOf(NewRecords(ids)) == []
  {
    hide ClosedOf, OpenOf;
    if ids == [] {
      assert NewRecords(ids) == [];
      NothingToDrain();
    } else {
      var s := NewRecords(ids);
      NewAllClosed(ids[1..]);
      Uncons(s);
      assert s[1..] == NewRecords(ids[1..]);
      assert s == [s[0]] + s[1..];
    }
  }
}
