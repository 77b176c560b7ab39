// opof_delete_all_sessions on values: pages through the cursor, each page deleted by
// the ids that survive the client's conversions, before the next request.
module CleanupSpec {
  import opened Seqs
  import opened Links
  import opened TableSpec
  import opened SessionSpec

  const TWO_31: int := 0x8000_0000
  const TWO_32: int := 0x1_0000_0000
  const TWO_64: int := 0x1_0000_0000_0000_0000

  // Conversion of an unsigned long to int, and of an int to a 64-bit unsigned.
  function AsInt(x: nat): int {
    var low := x % TWO_32;
    if low < TWO_31 then low else low - TWO_32
  }

  function AsU64(i: int): nat
    requires -TWO_31 <= i < TWO_31
  {
    if i >= 0 then i else i + TWO_64
  }

  // The id a delete request carries: the reply's id stored in an int, passed on as an
  // unsigned long, taken as an int again and sent as a 64-bit id.
  function Wire(id: nat): nat {
    AsU64(AsInt(AsU64(AsInt(id))))
  }

  predicate RoundTrips(id: nat) {
    id < TWO_31 || TWO_64 - TWO_31 <= id < TWO_64
  }

  lemma WireIff(id: nat)
    ensures Wire(id) == id <==> RoundTrips(id)
  {
  }

  // The id a delete request carries: the one with the low 32 bits of the id that round-trips.
  lemma WireRange(x: nat)
    ensures RoundTrips(Wire(x)) && Wire(x) != UINT_MAX
    ensures Wire(x) % TWO_32 == x % TWO_32
  {
  }

  ghost predicate AllRoundTrip(s: seq<Record>) {
    forall i :: 0 <= i < |s| ==> RoundTrips(s[i].sessionId)
  }

  // One delete by id, following the cursor: None once the record it points at is freed.
  function DeleteStep(s: seq<Record>, cursor: Option<nat>, id: nat): (seq<Record>, Option<nat>) {
    var i := IndexOf(s, Wire(id));
    if i == |s| then (s, cursor)
    else (Without(s, i), CursorAfter(cursor, i))
  }

  function CursorAfter(cursor: Option<nat>, i: nat): Option<nat> {
    match cursor
    case None => None
    case Some(c) => if i < c then Some(c - 1) else if i == c then None else cursor
  }

  function DeleteIds(s: seq<Record>, cursor: Option<nat>, ids: seq<nat>): (seq<Record>, Option<nat>) {
    if ids == [] then (s, cursor)
    else
      var (t, c) := DeleteStep(s, cursor, ids[0]);
      DeleteIds(t, c, ids[1..])
  }

  datatype Phase = Running | Finished | Undefined

  datatype Cleanup = Cleanup(recs: seq<Record>, cursor: Option<nat>, key: nat, phase: Phase)

  // One turn of the loop. Following a cursor into a freed record is undefined.
  function Round(c: Cleanup): Cleanup {
    if c.phase != Running then c
    else
      match if c.key == UINT_MAX then Some(0) else c.cursor
      case None => c.(phase := Undefined)
      case Some(p) =>
        var page := Take(Drop(c.recs, p), BUFFER_MAX);
        if page == [] then c.(phase := Finished)
        else
          var (recs, cursor) := DeleteIds(c.recs, Some(p + |page|), IdsOf(page));
          Cleanup(recs, cursor, Last(page).sessionId, Running)
  }

  lemma RoundIs(c: Cleanup, p: nat)
    requires c.phase == Running && Some(p) == (if c.key == UINT_MAX then Some(0) else c.cursor)
    ensures var page := Take(Drop(c.recs, p), BUFFER_MAX);
            var (recs, cursor) := DeleteIds(c.recs, Some(p + |page|), IdsOf(page));
            Round(c) == if page == [] then c.(phase := Finished)
                        else Cleanup(recs, cursor, Last(page).sessionId, Running)
  {
  }

  function Rounds(s: seq<Record>, n: nat): Cleanup {
    if n == 0 then Cleanup(s, None, UINT_MAX, Running) else Round(Rounds(s, n - 1))
  }

  // Deleting a whole page whose ids round-trip leaves what followed it, with the cursor on
  // the first record left.
  lemma {:induction false} DeletePage(page: seq<Record>, rest: seq<Record>)
    requires DistinctIds(page + rest) && AllRoundTrip(page)
    ensures DeleteIds(page + rest, Some(|page|), IdsOf(page)) == (rest, Some(0))
  {
    var s := page + rest;
    if page == [] {
      assert s == rest;
    } else {
      var id := page[0].sessionId;
      WireIff(id);
      assert s[0] == page[0];
      assert IndexOf(s, id) == 0;
      assert Without(s, 0) == page[1..] + rest;
      assert IdsOf(page)[1..] == IdsOf(page[1..]);
      forall i, j | 0 <= i < j < |page[1..] + rest|
        ensures (page[1..] + rest)[i].sessionId != (page[1..] + rest)[j].sessionId
      {
        assert s[i + 1].sessionId != s[j + 1].sessionId;
      }
      DeletePage(page[1..], rest);
    }
  }

  // A record whose id does not round-trip is never deleted.
  lemma {:induction false} Survives(s: seq<Record>, cursor: Option<nat>, ids: seq<nat>, r: Record)
    requires r in s && !RoundTrips(r.sessionId)
    ensures r in DeleteIds(s, cursor, ids).0
  {
    if ids != [] {
      var (t, c) := DeleteStep(s, cursor, ids[0]);
      SurvivesStep(s, cursor, ids[0], r);
      Survives(t, c, ids[1..], r);
    }
  }

  lemma SurvivesStep(s: seq<Record>, cursor: Option<nat>, id: nat, r: Record)
    requires r in s && !RoundTrips(r.sessionId)
    ensures r in DeleteStep(s, cursor, id).0
  {
    var i := IndexOf(s, Wire(id));
    WireRange(id);
    if i < |s| {
      var k :| 0 <= k < |s| && s[k] == r;
      assert Without(s, i)[if k < i then k else k - 1] == r;
    }
  }

  lemma SurvivesRound(c: Cleanup, r: Record)
    requires r in c.recs && !RoundTrips(r.sessionId)
    ensures r in Round(c).recs
  {
    hide DeleteIds, Take, Drop, RoundTrips;
    var p := if c.key == UINT_MAX then Some(0) else c.cursor;
    if c.phase == Running && p.Some? {
      var page := Take(Drop(c.recs, p.value), BUFFER_MAX);
      Survives(c.recs, Some(p.value + |page|), IdsOf(page), r);
    }
  }

  lemma {:induction false} SurvivesRounds(s: seq<Record>, n: nat, r: Record)
    requires r in s && !RoundTrips(r.sessionId)
    ensures r in Rounds(s, n).recs
  {
    if n > 0 {
      SurvivesRounds(s, n - 1, r);
      SurvivesRound(Rounds(s, n - 1), r);
    }
  }

  // A turn with the cursor on the first record removes exactly one page.
  lemma GoodRound(c: Cleanup)
    requires c.phase == Running && (c.key == UINT_MAX || c.cursor == Some(0))
    requires DistinctIds(c.recs) && AllRoundTrip(c.recs)
    ensures c.recs == [] ==> Round(c) == c.(phase := Finished)
    ensures c.recs != [] ==>
              var d := Round(c);
              d.recs == Drop(c.recs, BUFFER_MAX) && d.cursor == Some(0) && d.phase == Running
  {
    var t := c.recs;
    assert Drop(t, 0) == t;
    if t != [] {
      var page := Take(t, BUFFER_MAX);
      var rest := Drop(t, BUFFER_MAX);
      assert t == page + rest && page != [];
      DeletePage(page, rest);
    }
  }

  lemma DropDrop(s: seq<Record>, n: nat)
    ensures Drop(Drop(s, n * BUFFER_MAX), BUFFER_MAX) == Drop(s, (n + 1) * BUFFER_MAX)
  {
  }

  lemma DropKeeps(s: seq<Record>, n: nat)
    requires DistinctIds(s) && AllRoundTrip(s)
    ensures DistinctIds(Drop(s, n)) && AllRoundTrip(Drop(s, n))
  {
  }

  // The cleanup after n turns when every id round-trips: n pages gone, the cursor live
  // on the first record left, nothing undefined.
  lemma {:induction false} CleanupRounds(s: seq<Record>, n: nat)
    requires DistinctIds(s) && AllRoundTrip(s)
    ensures var c := Rounds(s, n);
            && c.recs == Drop(s, n * BUFFER_MAX)
            && c.phase == (if n > 0 && (n - 1) * BUFFER_MAX >= |s| then Finished else Running)
            && (n > 0 && c.phase == Running ==> c.cursor == Some(0))
  {
    if n == 0 {
      assert Drop(s, 0) == s;
    } else {
      var c := Rounds(s, n - 1);
      CleanupRounds(s, n - 1);
      DropKeeps(s, (n - 1) * BUFFER_MAX);
      DropDrop(s, n - 1);
      assert Drop<Record>([], BUFFER_MAX) == [];
      if c.phase == Running {
        GoodRound(c);
      }
    }
  }

  lemma NextRound(s: seq<Record>, n: nat)
    ensures Rounds(s, n + 1) == Round(Rounds(s, n))
  {
  }

  lemma FinishedEmpty(s: seq<Record>, n: nat)
    requires DistinctIds(s) && AllRoundTrip(s) && Rounds(s, n).phase == Finished
    ensures Rounds(s, n).recs == []
  {
    CleanupRounds(s, n);
  }

  // The cleanup empties the table exactly when every id round-trips.
  lemma EmptiesIff(s: seq<Record>)
    requires DistinctIds(s)
    ensures (exists n: nat :: Rounds(s, n).phase == Finished && Rounds(s, n).recs == []) <==> AllRoundTrip(s)
    ensures AllRoundTrip(s) ==> forall n: nat :: Rounds(s, n).phase != Undefined
  {
    if AllRoundTrip(s) {
      CleanupRounds(s, |s| + 1);
      assert Rounds(s, |s| + 1).phase == Finished && Rounds(s, |s| + 1).recs == [];
      forall n: nat ensures Rounds(s, n).phase != Undefined {
        CleanupRounds(s, n);
      }
    } else {
      var i :| 0 <= i < |s| && !RoundTrips(s[i].sessionId);
      forall n: nat ensures Rounds(s, n).recs != [] {
        SurvivesRounds(s, n, s[i]);
      }
    }
  }
}
