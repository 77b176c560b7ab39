// Paging through the server's static cursor over an unmodified table, as the client
// loop of opof_test2 drives it: every request hands back the key of the last reply.
module PagingSpec {
  import opened Seqs
  import opened Chunking
  import opened SessionSpec

  // cursor: index of the next record, |ids| standing for the null cursor.
  datatype Paging = Paging(cursor: nat, key: nat, pages: seq<seq<nat>>, done: bool)

  function Min(a: nat, b: nat): nat {
    if a < b then a else b
  }

  function Start(ids: seq<nat>): Paging {
    Paging(|ids|, UINT_MAX, [], false)
  }

  // One request and its reply; an empty page ends the loop.
  function Round(ids: seq<nat>, p: Paging): Paging {
    if p.done then p
    else
      var pos := if p.key == UINT_MAX then 0 else p.cursor;
      if pos >= |ids| then p.(done := true, cursor := pos)
      else
        var m := Min(pos + BUFFER_MAX, |ids|);
        Paging(m, ids[m - 1], p.pages + [ids[pos..m]], false)
  }

  lemma RoundIs(ids: seq<nat>, p: Paging, pos: nat)
    requires !p.done && pos == (if p.key == UINT_MAX then 0 else p.cursor)
    ensures var page := Take(Drop(ids, pos), BUFFER_MAX);
            Round(ids, p) == if page == [] then p.(done := true, cursor := pos)
                             else Paging(pos + |page|, Last(page), p.pages + [page], false)
  {
    if pos < |ids| {
      var m := Min(pos + BUFFER_MAX, |ids|);
      assert Take(Drop(ids, pos), BUFFER_MAX) == ids[pos..m];
    }
  }

  function Rounds(ids: seq<nat>, n: nat): Paging {
    if n == 0 then Start(ids) else Round(ids, Rounds(ids, n - 1))
  }

  // The positions a page can end at.
  predicate PageEnd(ids: seq<nat>, k: nat) {
    k < |ids| && (k % BUFFER_MAX == BUFFER_MAX - 1 || k == |ids| - 1)
  }

  ghost predicate ResetKeyAtPageEnd(ids: seq<nat>) {
    exists k: nat :: PageEnd(ids, k) && ids[k] == UINT_MAX
  }

  // After n rounds without a reset key at a page end: the first n pages.
  ghost predicate After(ids: seq<nat>, n: nat, p: Paging) {
    if n == 0 then p == Start(ids)
    else if (n - 1) * BUFFER_MAX < |ids| then
      && p.cursor == Min(n * BUFFER_MAX, |ids|) && p.key != UINT_MAX && !p.done
      && p.pages + Chunks(ids[p.cursor..], BUFFER_MAX) == Chunks(ids, BUFFER_MAX)
    else p.done && p.pages == Chunks(ids, BUFFER_MAX)
  }

  lemma {:induction false} AfterRounds(ids: seq<nat>, n: nat)
    requires !ResetKeyAtPageEnd(ids)
    ensures After(ids, n, Rounds(ids, n))
  {
    if n > 0 {
      AfterRounds(ids, n - 1);
      AfterRound(ids, n - 1, Rounds(ids, n - 1));
    }
  }

  lemma AfterRound(ids: seq<nat>, n: nat, q: Paging)
    requires !ResetKeyAtPageEnd(ids) && After(ids, n, q)
    ensures After(ids, n + 1, Round(ids, q))
  {
    hide Chunks;
    var pos := if n == 0 then 0 else q.cursor;
    WholePages(ids);
    if q.done {
    } else if pos >= |ids| {
      NoMore(ids, pos, q.pages);
    } else {
      var m := Min(pos + BUFFER_MAX, |ids|);
      assert pos == n * BUFFER_MAX;
      AlignedEnd(ids, n, m);
      NextChunk(ids, pos, m, q.pages);
    }
  }

  lemma AlignedEnd(ids: seq<nat>, n: nat, m: nat)
    requires n * BUFFER_MAX < |ids| && m == Min(n * BUFFER_MAX + BUFFER_MAX, |ids|)
    ensures PageEnd(ids, m - 1)
  {
  }

  lemma WholePages(ids: seq<nat>)
    ensures [] + Chunks(ids[0..], BUFFER_MAX) == Chunks(ids, BUFFER_MAX)
  {
    assert ids[0..] == ids;
    var c := Chunks(ids, BUFFER_MAX);
    assert [] + c == c;
  }

  lemma NoMore(ids: seq<nat>, pos: nat, pages: seq<seq<nat>>)
    ensures pos == |ids| ==> pages + Chunks(ids[pos..], BUFFER_MAX) == pages
    ensures ids == [] ==> Chunks(ids, BUFFER_MAX) == []
  {
  }

  lemma NextChunk(ids: seq<nat>, pos: nat, m: nat, pages: seq<seq<nat>>)
    requires pos < |ids| && m == Min(pos + BUFFER_MAX, |ids|)
    ensures pages + Chunks(ids[pos..], BUFFER_MAX) == pages + [ids[pos..m]] + Chunks(ids[m..], BUFFER_MAX)
  {
    ChunksCons(ids[pos..], BUFFER_MAX);
    hide Chunks;
    assert ids[pos..][..m - pos] == ids[pos..m] && ids[pos..][m - pos..] == ids[m..];
    assert pages + ([ids[pos..m]] + Chunks(ids[m..], BUFFER_MAX)) == pages + [ids[pos..m]] + Chunks(ids[m..], BUFFER_MAX);
  }

  // A reset key at a page end sends the cursor back to the head for ever.
  lemma {:induction false} NeverEnds(ids: seq<nat>, k: nat, n: nat)
    requires PageEnd(ids, k) && ids[k] == UINT_MAX
    ensures var p := Rounds(ids, n);
            && !p.done
            && (p.key == UINT_MAX || (p.cursor % BUFFER_MAX == 0 && p.cursor <= k))
  {
    if n > 0 {
      NeverEnds(ids, k, n - 1);
      var q := Rounds(ids, n - 1);
      var pos := if q.key == UINT_MAX then 0 else q.cursor;
      var m := Min(pos + BUFFER_MAX, |ids|);
      if m - 1 != k {
        PageAligned(ids, pos, k);
      }
    }
  }

  lemma PageAligned(ids: seq<nat>, pos: nat, k: nat)
    requires PageEnd(ids, k) && pos % BUFFER_MAX == 0 && pos <= k
    requires Min(pos + BUFFER_MAX, |ids|) - 1 != k
    ensures Min(pos + BUFFER_MAX, |ids|) == pos + BUFFER_MAX <= k
    ensures (pos + BUFFER_MAX) % BUFFER_MAX == 0
  {
  }

  ghost predicate Ends(ids: seq<nat>) {
    exists n: nat :: Rounds(ids, n).done
  }

  lemma DoneEnds(ids: seq<nat>, n: nat)
    ensures Rounds(ids, n).done ==> Ends(ids)
  {
  }

  // The paging loop of a client ends exactly when no page ends on the id that doubles as
  // the start key, and then its pages are the whole table cut into pages of 64.
  lemma PagingEndsIff(ids: seq<nat>)
    ensures Ends(ids) <==> !ResetKeyAtPageEnd(ids)
    ensures forall n: nat :: Rounds(ids, n).done ==> Rounds(ids, n).pages == Chunks(ids, BUFFER_MAX)
  {
    if ResetKeyAtPageEnd(ids) {
      var k: nat :| PageEnd(ids, k) && ids[k] == UINT_MAX;
      forall n: nat ensures !Rounds(ids, n).done {
        NeverEnds(ids, k, n);
      }
    } else {
      AfterRounds(ids, |ids| + 1);
      DoneEnds(ids, |ids| + 1);
      forall n: nat ensures Rounds(ids, n).done ==> Rounds(ids, n).pages == Chunks(ids, BUFFER_MAX) {
        AfterRounds(ids, n);
      }
    }
  }

  lemma NextRound(ids: seq<nat>, n: nat)
    ensures Rounds(ids, n + 1) == Round(ids, Rounds(ids, n))
  {
  }

  // Bounds the loop: it is done after as many rounds as there are ids, and one more.
  lemma RoundsLeft(ids: seq<nat>, n: nat)
    requires !ResetKeyAtPageEnd(ids) && !Rounds(ids, n).done
    ensures n <= |ids|
  {
    AfterRounds(ids, n);
  }

  lemma FirstRound(ids: seq<nat>)
    ensures Rounds(ids, 0) == Start(ids)
  {
  }

  lemma RoundsPages(ids: seq<nat>, n: nat)
    requires Rounds(ids, n).done
    ensures Rounds(ids, n).pages == Chunks(ids, BUFFER_MAX)
  {
    PagingEndsIff(ids);
  }
}
