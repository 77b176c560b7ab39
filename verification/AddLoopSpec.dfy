// The adding loop of the tests on values: streams of consecutive ids, and how many of
// each stream the reply rejects, which the client copies into a 64-entry array.
module AddLoopSpec {
  import opened Seqs
  import opened Links
  import opened SessionSpec

  // createSessionRequest: consecutive ids.
  function Consecutive(from: nat, n: nat): (ids: seq<nat>)
    ensures |ids| == n && forall i :: 0 <= i < n ==> ids[i] == from + i
  {
    seq(n, i requires 0 <= i < n => from + i)
  }

  // How long the stream that starts at from is.
  function StreamLength(from: nat, total: nat, pageSize: nat): nat
    requires from <= total
  {
    if total - from < pageSize then total - from else pageSize
  }

  // How many of n consecutive ids from `from` on are rejected once the ones before have
  // been sent to a table s.
  function Rejected(s: seq<Record>, from: nat, n: nat): nat {
    |AddAll(AddAll(s, Consecutive(0, from)).0, Consecutive(from, n)).1|
  }

  predicate StreamFits(s: seq<Record>, total: nat, pageSize: nat, k: nat) {
    var from := k * pageSize;
    from < total ==> Rejected(s, from, StreamLength(from, total, pageSize)) <= BUFFER_MAX
  }

  // No stream of the loop has more rejected requests than the client's array holds.
  ghost predicate StreamsFit(s: seq<Record>, total: nat, pageSize: nat) {
    forall k: nat :: StreamFits(s, total, pageSize, k)
  }

  lemma NextStream(from: nat, n: nat)
    ensures Consecutive(0, from) + Consecutive(from, n) == Consecutive(0, from + n)
  {
  }

  // Every request of a stream is either appended or rejected.
  lemma {:induction false} AddCount(s: seq<Record>, ids: seq<nat>)
    ensures |AddAll(s, ids).0| + |AddAll(s, ids).1| == |s| + |ids|
  {
    if ids != [] {
      AddCount(s, Front(ids));
    }
  }

  lemma AdmittedFromEmpty(n: nat)
    ensures AddAll([], Consecutive(0, n)).0 == NewRecords(Consecutive(0, if n <= 1001 then n else 1001))
  {
    var ids := Consecutive(0, n);
    AdmitsExactly([], ids);
    assert Take(ids, Room([])) == Consecutive(0, if n <= 1001 then n else 1001);
    var r := NewRecords(Consecutive(0, if n <= 1001 then n else 1001));
    assert [] + r == r;
  }

  // From an empty table the first 1001 ids are taken and the others rejected.
  lemma RejectedFromEmpty(from: nat, n: nat)
    ensures Rejected([], from, n) ==
            if from + n <= 1001 then 0 else if from <= 1001 then from + n - 1001 else n
  {
    hide AddAll;
    AdmittedFromEmpty(from);
    AdmittedFromEmpty(from + n);
    var t := AddAll([], Consecutive(0, from)).0;
    AddAllAppend([], Consecutive(0, from), Consecutive(from, n));
    NextStream(from, n);
    AddCount(t, Consecutive(from, n));
  }

  // The end of the stream that holds id 1001, the first to be rejected.
  function FullAt(pageSize: nat): nat
    requires pageSize >= 1
  {
    (1001 / pageSize + 1) * pageSize
  }

  // The sizes for which the loop fits from an empty table.
  predicate FitsFromEmpty(total: nat, pageSize: nat) {
    pageSize <= 64 || total <= 1065 || (FullAt(pageSize) <= 1065 && total <= FullAt(pageSize) + 64)
  }

  lemma FitsFromEmptyIff(total: nat, pageSize: nat)
    requires pageSize >= 1 || total == 0
    ensures StreamsFit([], total, pageSize) <==> FitsFromEmpty(total, pageSize)
  {
    hide StreamFits, FitsFromEmpty;
    if pageSize == 0 {
      forall k: nat ensures StreamFits([], total, pageSize, k) {
        NoStream(pageSize, k);
      }
      NoStreams();
    } else if FitsFromEmpty(total, pageSize) {
      forall k: nat ensures StreamFits([], total, pageSize, k) {
        FitStream(total, pageSize, k);
      }
    } else {
      var k := UnfitStream(total, pageSize);
    }
  }

  lemma NoStream(pageSize: nat, k: nat)
    ensures StreamFits([], 0, pageSize, k)
  {
    assert k * pageSize >= 0;
  }

  lemma NoStreams()
    ensures FitsFromEmpty(0, 0)
  {
  }

  // Stream k against the one, number q, that holds id 1001.
  lemma StreamPlace(pageSize: nat, k: nat)
    requires pageSize >= 1
    ensures var q := 1001 / pageSize;
            && q * pageSize <= 1001 < FullAt(pageSize) == q * pageSize + pageSize
            && (k < q ==> k * pageSize + pageSize <= 1001)
            && (k == q + 1 ==> k * pageSize == FullAt(pageSize))
            && (k > q ==> k * pageSize >= FullAt(pageSize))
  {
    var q := 1001 / pageSize;
    assert 1001 == q * pageSize + 1001 % pageSize;
    assert (q + 1) * pageSize == q * pageSize + pageSize;
    if k < q {
      Times(k + 1, q, pageSize);
      assert (k + 1) * pageSize == k * pageSize + pageSize;
    } else if k > q {
      Times(q + 1, k, pageSize);
    }
  }

  lemma Times(a: nat, b: nat, k: nat)
    requires a <= b
    ensures a * k <= b * k
  {
  }

  lemma FitStream(total: nat, pageSize: nat, k: nat)
    requires pageSize >= 1 && FitsFromEmpty(total, pageSize)
    ensures StreamFits([], total, pageSize, k)
  {
    hide Rejected, FullAt;
    var from := k * pageSize;
    StreamPlace(pageSize, k);
    if from < total {
      RejectedFromEmpty(from, StreamLength(from, total, pageSize));
    }
  }

  lemma UnfitStream(total: nat, pageSize: nat) returns (k: nat)
    requires pageSize >= 1 && !FitsFromEmpty(total, pageSize)
    ensures !StreamFits([], total, pageSize, k)
  {
    hide Rejected, FullAt;
    k := 1001 / pageSize + if FullAt(pageSize) > 1065 then 0 else 1;
    var from := k * pageSize;
    StreamPlace(pageSize, k);
    RejectedFromEmpty(from, StreamLength(from, total, pageSize));
  }
}
